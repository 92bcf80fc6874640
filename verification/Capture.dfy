/** What a spawned task copies from its environment. A walk over the task body collects the
    names it refers to and does not bind first; the captures are chosen among them. The main
    result is a coincidence theorem: environments that agree on the collected names run the body
    to the same result, the same output and environments that still agree. */
module Capture {
  import opened Int64
  import opened Undef

  datatype Value = Num(v: i64) | Lst(vs: seq<i64>)

  datatype LogicOp = LAnd | LOr | LXor | LNot

  datatype Operator = Arith(op: BinOp) | Compare(cop: CmpOp) | Logic(lop: LogicOp)

  /** The node kinds of a task body. A read by plain or dynamic name is a Name, a flexible or
      final binding a Bind; Absent stands for a missing operand. */
  datatype Node =
    | Absent
    | Const(v: i64)
    | Name(name: string)
    | VarDecl(name: string, init: Node)
    | Binary(operator: Operator, lhs: Node, rhs: Node)
    | Return(e: Node)
    | Block(stmts: seq<Node>)
    | Bind(name: string, e: Node)
    | Loop(cond: Node, body: seq<Node>)
    | ForEach(name: string, e: Node, body: seq<Node>)
    | RangeFor(name: string, start: Node, end: Node, step: Node, body: seq<Node>)
    | If(cond: Node, thn: seq<Node>, els: seq<Node>)
    | Match(e: Node, arms: seq<Arm>, dflt: seq<Node>)
    | FlowBind(e: Node, name: string)
    | Write(exprs: seq<Node>)
    | Break
    | Continue(depth: nat)
    | Fallback(primary: Node, alternate: Node)

  datatype Arm = Arm(key: i64, body: seq<Node>)

  // ----- the walk -----

  /** The names a node refers to free, given the names bound before it. */
  function Refs(n: Node, locals: set<string>): set<string>
    decreases n, 0
  {
    match n
    case Name(x) => {x} - locals
    case VarDecl(x, init) => if init == Absent then {x} - locals else Refs(init, locals)
    case Binary(_, l, r) => Refs(l, locals) + Refs(r, Bound(l, locals))
    case Return(e) => Refs(e, locals)
    case Block(b) => RefsSeq(b, locals)
    case Bind(_, e) => Refs(e, locals)
    case Loop(c, b) => Refs(c, locals) + RefsSeq(b, Bound(c, locals))
    case ForEach(x, e, b) => Refs(e, locals) + RefsSeq(b, Bound(e, locals) + {x})
    case RangeFor(x, e1, e2, e3, b) =>
      var l1 := Bound(e1, locals);
      var l2 := Bound(e2, l1);
      Refs(e1, locals) + Refs(e2, l1) + Refs(e3, l2) + RefsSeq(b, Bound(e3, l2) + {x})
    case If(c, t, f) => Refs(c, locals) + RefsSeq(t, Bound(c, locals)) + RefsSeq(f, Bound(c, locals))
    case Match(e, arms, d) =>
      Refs(e, locals) + RefsArms(arms, Bound(e, locals)) + RefsSeq(d, Bound(e, locals))
    case FlowBind(e, x) => Refs(e, locals) + ({x} - Bound(e, locals))
    case Write(es) => RefsSeq(es, locals)
    case _ => {}
  }

  function RefsSeq(ns: seq<Node>, locals: set<string>): set<string>
    decreases ns, 0
  {
    if ns == [] then {} else Refs(ns[0], locals) + RefsSeq(ns[1..], Bound(ns[0], locals))
  }

  function RefsArms(arms: seq<Arm>, locals: set<string>): set<string>
    decreases arms, 0
  {
    if arms == [] then {} else RefsSeq(arms[0].body, locals) + RefsArms(arms[1..], locals)
  }

  /** The names bound once a node has run: nested blocks keep theirs to themselves. */
  function Bound(n: Node, locals: set<string>): set<string>
    decreases n, 0
  {
    match n
    case VarDecl(_, init) => if init == Absent then locals else Bound(init, locals)
    case Binary(_, l, r) => Bound(r, Bound(l, locals))
    case Return(e) => Bound(e, locals)
    case Bind(x, e) => Bound(e, locals) + {x}
    case Loop(c, _) => Bound(c, locals)
    case ForEach(_, e, _) => Bound(e, locals)
    case RangeFor(_, e1, e2, e3, _) => Bound(e3, Bound(e2, Bound(e1, locals)))
    case If(c, _, _) => Bound(c, locals)
    case Match(e, _, _) => Bound(e, locals)
    case FlowBind(e, _) => Bound(e, locals)
    case Write(es) => BoundSeq(es, locals)
    case _ => locals
  }

  function BoundSeq(ns: seq<Node>, locals: set<string>): set<string>
    decreases ns, 0
  {
    if ns == [] then locals else BoundSeq(ns[1..], Bound(ns[0], locals))
  }

  // ----- the walk in place -----

  /** The recursive walk: adds to the references, and to the locals in the order it goes. */
  method CollectFreeRefs(n: Node, refs: set<string>, locals: set<string>)
    returns (refs': set<string>, locals': set<string>)
    ensures refs' == refs + Refs(n, locals) && locals' == Bound(n, locals)
    decreases n, 1
  {
    refs', locals' := refs, locals;
    match n
    case Name(x) =>
      if x !in locals { refs' := refs' + {x}; }
    case VarDecl(x, init) =>
      if init != Absent {
        refs', locals' := CollectFreeRefs(init, refs', locals');
      } else if x !in locals {
        refs' := refs' + {x};
      }
    case Binary(_, l, r) =>
      refs', locals' := CollectFreeRefs(l, refs', locals');
      refs', locals' := CollectFreeRefs(r, refs', locals');
    case Return(e) =>
      refs', locals' := CollectFreeRefs(e, refs', locals');
    case Block(b) =>
      refs' := CollectBlockRefs(b, refs', locals');
    case Bind(x, e) =>
      refs', locals' := CollectFreeRefs(e, refs', locals');
      locals' := locals' + {x};
    case Loop(c, b) =>
      refs', locals' := CollectFreeRefs(c, refs', locals');
      refs' := CollectBlockRefs(b, refs', locals');
    case ForEach(x, e, b) =>
      refs', locals' := CollectFreeRefs(e, refs', locals');
      refs' := CollectBlockRefs(b, refs', locals' + {x});
    case RangeFor(_, _, _, _, _) =>
      refs', locals' := CollectRangeRefs(n, refs', locals');
    case If(c, t, f) =>
      refs', locals' := CollectFreeRefs(c, refs', locals');
      refs' := CollectBlockRefs(t, refs', locals');
      refs' := CollectBlockRefs(f, refs', locals');
      assert refs' == refs + Refs(n, locals);
    case Match(_, _, _) =>
      refs', locals' := CollectMatchRefs(n, refs', locals');
    case FlowBind(e, x) =>
      refs', locals' := CollectFreeRefs(e, refs', locals');
      if x !in locals' { refs' := refs' + {x}; }
    case Write(es) =>
      refs', locals' := CollectSeqRefs(es, refs', locals');
    case _ =>
  }

  /** The operands of a range, in order, and its body with the loop variable. */
  method CollectRangeRefs(n: Node, refs: set<string>, locals: set<string>)
    returns (refs': set<string>, locals': set<string>)
    requires n.RangeFor?
    ensures refs' == refs + Refs(n, locals) && locals' == Bound(n, locals)
    decreases n, 0
  {
    refs', locals' := CollectFreeRefs(n.start, refs, locals);
    refs', locals' := CollectFreeRefs(n.end, refs', locals');
    refs', locals' := CollectFreeRefs(n.step, refs', locals');
    refs' := CollectBlockRefs(n.body, refs', locals' + {n.name});
  }

  /** The scrutinee of a match, then each arm and the default from the names bound by it. */
  method CollectMatchRefs(n: Node, refs: set<string>, locals: set<string>)
    returns (refs': set<string>, locals': set<string>)
    requires n.Match?
    ensures refs' == refs + Refs(n, locals) && locals' == Bound(n, locals)
    decreases n, 0
  {
    refs', locals' := CollectFreeRefs(n.e, refs, locals);
    refs' := CollectArmRefs(n.arms, refs', locals');
    refs' := CollectBlockRefs(n.dflt, refs', locals');
  }

  method CollectSeqRefs(ns: seq<Node>, refs: set<string>, locals: set<string>)
    returns (refs': set<string>, locals': set<string>)
    ensures refs' == refs + RefsSeq(ns, locals) && locals' == BoundSeq(ns, locals)
    decreases ns, 2
  {
    refs', locals' := refs, locals;
    var i := 0;
    assert ns[0..] == ns;
    while i < |ns|
      invariant 0 <= i <= |ns|
      invariant refs' + RefsSeq(ns[i..], locals') == refs + RefsSeq(ns, locals)
      invariant BoundSeq(ns[i..], locals') == BoundSeq(ns, locals)
    {
      assert ns[i..][0] == ns[i] && ns[i..][1..] == ns[i + 1..];
      refs', locals' := CollectFreeRefs(ns[i], refs', locals');
      i := i + 1;
    }
  }

  /** A block works on its own copy of the locals. */
  method CollectBlockRefs(ns: seq<Node>, refs: set<string>, locals: set<string>) returns (refs': set<string>)
    ensures refs' == refs + RefsSeq(ns, locals)
    decreases ns, 3
  {
    var own;
    refs', own := CollectSeqRefs(ns, refs, locals);
  }

  method CollectArmRefs(arms: seq<Arm>, refs: set<string>, locals: set<string>) returns (refs': set<string>)
    ensures refs' == refs + RefsArms(arms, locals)
    decreases arms, 1
  {
    refs' := refs;
    var i := 0;
    assert arms[0..] == arms;
    while i < |arms|
      invariant 0 <= i <= |arms|
      invariant refs' + RefsArms(arms[i..], locals) == refs + RefsArms(arms, locals)
    {
      assert arms[i..][0] == arms[i] && arms[i..][1..] == arms[i + 1..];
      refs' := CollectBlockRefs(arms[i].body, refs', locals);
      i := i + 1;
    }
  }

  // ----- running a body -----

  type Env = map<string, Value>

  datatype Signal = Done(v: Value) | Breaking | Continuing(depth: nat) | Returning(v: Value) | Faulting | OutOfFuel

  /** A signal, the environment, what was written, and the loop rounds left. */
  datatype Outcome = Outcome(sig: Signal, env: Env, out: seq<Value>, fuel: nat)

  function Get(env: Env, x: string): Value {
    if x in env then env[x] else Num(0)
  }

  function Truth(b: bool): Value {
    Num(if b then 1 else 0)
  }

  /** Both operands have been evaluated; a list handle is no operand. */
  function Apply(op: Operator, a: Value, b: Value): Signal {
    if a.Lst? || b.Lst? then Faulting
    else
      match op
      case Arith(o) =>
        var r := EvalBin(o, a.v, b.v);
        if r.None? then Faulting else Done(Num(r.value))
      case Compare(o) => Done(Truth(Undef.Compare(o, a.v, b.v)))
      case Logic(o) =>
        var x, y := a.v != 0, b.v != 0;
        Done(Truth(match o case LAnd => x && y case LOr => x || y case LXor => x != y case LNot => !x))
  }

  /** What `next` gave when run after o, with what o wrote in front. */
  function After(o: Outcome, next: Outcome): Outcome {
    next.(out := o.out + next.out)
  }

  datatype Round = Again(env: Env) | Leave(sig: Signal)

  function AfterBody(o: Outcome): Round {
    match o.sig
    case Done(_) => Again(o.env)
    case Breaking => Leave(Done(Num(0)))
    case Continuing(d) => if d <= 1 then Again(o.env) else Leave(Continuing(d - 1))
    case _ => Leave(o.sig)
  }

  function ArmFor(arms: seq<Arm>, dflt: seq<Node>, k: i64): seq<Node>
    decreases |arms|
  {
    if arms == [] then dflt else if arms[0].key == k then arms[0].body else ArmFor(arms[1..], dflt, k)
  }

  lemma {:induction false} ArmIsSmaller(n: Node, arms: seq<Arm>, k: i64)
    requires n.Match? && forall i :: 0 <= i < |arms| ==> arms[i] in n.arms
    ensures ArmFor(arms, n.dflt, k) == n.dflt
            || exists i :: 0 <= i < |n.arms| && n.arms[i].body == ArmFor(arms, n.dflt, k)
    decreases |arms|
  {
    if arms != [] {
      if arms[0].key != k {
        ArmIsSmaller(n, arms[1..], k);
      }
    }
  }

  function Run(n: Node, env: Env, fuel: nat): (o: Outcome)
    ensures o.fuel <= fuel
    decreases fuel, n, 1
  {
    match n
    case Const(v) => Outcome(Done(Num(v)), env, [], fuel)
    case Name(x) => Outcome(Done(Get(env, x)), env, [], fuel)
    case Binary(op, l, r) =>
      var o := RunTwo(n, l, r, env, fuel);
      if o.0.sig.Done? then o.0.(sig := Apply(op, o.1, o.0.sig.v)) else o.0
    case Return(e) =>
      var o := Run(e, env, fuel);
      if o.sig.Done? then o.(sig := Returning(o.sig.v)) else o
    case Block(b) => RunSeq(b, env, fuel)
    case Bind(x, e) => RunBind(x, e, env, fuel)
    case FlowBind(e, x) => RunBind(x, e, env, fuel)
    case Loop(c, b) => RunLoop(c, b, env, fuel)
    case ForEach(x, e, b) =>
      var o := Run(e, env, fuel);
      if !o.sig.Done? then o
      else if o.sig.v.Num? then o.(sig := Faulting)
      else
        var o2 := RunEach(x, o.sig.v.vs, b, o.env, o.fuel);
        After(o, o2.(env := o2.env - {x}))
    case RangeFor(x, e1, e2, e3, b) =>
      var o := RunTwo(n, e1, e2, env, fuel);
      if !o.0.sig.Done? then o.0
      else After(o.0, RunSteps(n, x, o.1, o.0.sig.v, e3, b, o.0.env, o.0.fuel))
    case If(c, t, f) =>
      var o := Run(c, env, fuel);
      if !o.sig.Done? then o
      else After(o, RunSeq(if o.sig.v != Num(0) then t else f, o.env, o.fuel))
    case Match(e, arms, d) =>
      if arms == [] then RunSeq(d, env, fuel)
      else
        var o := Run(e, env, fuel);
        if !o.sig.Done? then o
        else if o.sig.v.Lst? then o.(sig := Faulting)
        else
          ArmIsSmaller(n, arms, o.sig.v.v);
          After(o, RunSeq(ArmFor(arms, d, o.sig.v.v), o.env, o.fuel))
    case Write(es) => RunWrites(es, env, fuel)
    case Break => Outcome(Breaking, env, [], fuel)
    case Continue(d) => Outcome(Continuing(d), env, [], fuel)
    case Fallback(p, a) =>
      var o := RunTwo(n, p, a, env, fuel);
      if o.0.sig.Done? then o.0.(sig := Done(if o.1 == Num(UNDEF) then o.0.sig.v else o.1)) else o.0
    case _ => Outcome(Done(Num(0)), env, [], fuel)
  }

  /** Two operands from left to right; the second component is the left value. */
  function RunTwo(ghost n: Node, l: Node, r: Node, env: Env, fuel: nat): (o: (Outcome, Value))
    requires l < n && r < n
    ensures o.0.fuel <= fuel
    decreases fuel, n, 0
  {
    var o := Run(l, env, fuel);
    if !o.sig.Done? then (o, Num(0)) else (After(o, Run(r, o.env, o.fuel)), o.sig.v)
  }

  /** The step of a range loop, evaluated last, and the loop. */
  function RunSteps(ghost n: Node, x: string, start: Value, end: Value, step: Node, b: seq<Node>, env: Env,
                    fuel: nat): (o: Outcome)
    requires n.RangeFor? && step == n.step && b == n.body
    ensures o.fuel <= fuel
    decreases fuel, n, 0
  {
    var o := Run(step, env, fuel);
    if !o.sig.Done? then o
    else if start.Lst? || end.Lst? || o.sig.v.Lst? then o.(sig := Faulting)
    else After(o, RunRange(x, start.v, end.v, o.sig.v.v, b, o.env, o.fuel))
  }

  function RunBind(x: string, e: Node, env: Env, fuel: nat): (o: Outcome)
    ensures o.fuel <= fuel
    decreases fuel, e, 2
  {
    var o := Run(e, env, fuel);
    if o.sig.Done? then o.(env := o.env[x := o.sig.v]) else o
  }

  function RunSeq(ns: seq<Node>, env: Env, fuel: nat): (o: Outcome)
    ensures o.fuel <= fuel
    decreases fuel, ns, 0
  {
    if ns == [] then Outcome(Done(Num(0)), env, [], fuel)
    else
      var o := Run(ns[0], env, fuel);
      if !o.sig.Done? || |ns| == 1 then o else After(o, RunSeq(ns[1..], o.env, o.fuel))
  }

  function RunWrites(es: seq<Node>, env: Env, fuel: nat): (o: Outcome)
    ensures o.fuel <= fuel
    decreases fuel, es, 0
  {
    if es == [] then Outcome(Done(Num(0)), env, [], fuel)
    else
      var o := Run(es[0], env, fuel);
      if !o.sig.Done? then o
      else After(o.(out := o.out + [o.sig.v]), RunWrites(es[1..], o.env, o.fuel))
  }

  /** A loop without condition runs until its body leaves it. */
  function RunCond(c: Node, env: Env, fuel: nat): (o: Outcome)
    ensures o.fuel <= fuel
    decreases fuel, c, 2
  {
    if c == Absent then Outcome(Done(Num(1)), env, [], fuel) else Run(c, env, fuel)
  }

  function RunLoop(c: Node, b: seq<Node>, env: Env, fuel: nat): (o: Outcome)
    ensures o.fuel <= fuel
    decreases fuel, Loop(c, b), 0
  {
    if fuel == 0 then Outcome(OutOfFuel, env, [], 0)
    else
      var o := RunCond(c, env, fuel - 1);
      if !o.sig.Done? then o
      else if o.sig.v == Num(0) then o
      else After(o, RunLoopBody(c, b, o.env, o.fuel))
  }

  function RunLoopBody(c: Node, b: seq<Node>, env: Env, fuel: nat): (o: Outcome)
    ensures o.fuel <= fuel
    decreases fuel, Loop(c, b), 1
  {
    var o := RunSeq(b, env, fuel);
    match AfterBody(o)
    case Again(env') => After(o, RunLoop(c, b, env', o.fuel))
    case Leave(sig) => o.(sig := sig)
  }

  function RunEach(x: string, vs: seq<i64>, b: seq<Node>, env: Env, fuel: nat): (o: Outcome)
    ensures o.fuel <= fuel
    decreases fuel, b, |vs| + 1
  {
    if vs == [] then Outcome(Done(Num(0)), env, [], fuel)
    else
      var o := RunSeq(b, env[x := Num(vs[0])], fuel);
      match AfterBody(o)
      case Again(env') => After(o, RunEach(x, vs[1..], b, env', o.fuel))
      case Leave(sig) => o.(sig := sig)
  }

  function RunRange(x: string, i: i64, end: i64, step: i64, b: seq<Node>, env: Env, fuel: nat): (o: Outcome)
    ensures o.fuel <= fuel
    decreases fuel, b, 1
  {
    if fuel == 0 then Outcome(OutOfFuel, env, [], 0)
    else if step == 0 || (if step > 0 then i > end else i < end) then Outcome(Done(Num(0)), env, [], fuel - 1)
    else
      var o := RunSeq(b, env[x := Num(i)], fuel - 1);
      match AfterBody(o)
      case Again(env') => After(o, RunRange(x, Add(i, step), end, step, b, env', o.fuel))
      case Leave(sig) => o.(sig := sig)
  }
}
