/** The two interpreters agree: a statement without rings runs as the body of a task exactly as it
    runs in the program, round for round. */
module TaskFlow {
  import opened Wrappers
  import opened Int64
  import opened Undef
  import C = Capture
  import F = Flow

  // ----- programs as task bodies -----

  predicate Plain(e: Expr) {
    match e
    case Lit(_) => true
    case Ref(_, _) => true
    case Bin(_, l, r) => Plain(l) && Plain(r)
    case Fallback(p, a) => Plain(p) && Plain(a)
    case _ => false
  }

  predicate PlainCond(c: Cond) {
    match c
    case NonZero(e) => Plain(e)
    case Cmp(_, l, r) => Plain(l) && Plain(r)
    case Not(d) => PlainCond(d)
    case And(d, e) => PlainCond(d) && PlainCond(e)
    case Or(d, e) => PlainCond(d) && PlainCond(e)
    case Xor(d, e) => PlainCond(d) && PlainCond(e)
  }

  /** Every break and continue names a loop around it. */
  predicate Fit(s: F.Stmt, loops: nat)
    decreases s, 0
  {
    match s
    case Bind(_, e, _) => Plain(e)
    case Block(b) => FitSeq(b, loops)
    case If(c, t, _, f) => PlainCond(c) && FitSeq(t, loops) && FitSeq(f, loops)
    case Infinite(b) => FitSeq(b, loops + 1)
    case While(c, b) => PlainCond(c) && FitSeq(b, loops + 1)
    case RangeFor(_, e1, e2, e3, b) => Plain(e1) && Plain(e2) && Plain(e3) && FitSeq(b, loops + 1)
    case Break => loops > 0
    case Continue(d) => 1 <= d <= loops
    case Return(e) => Plain(e)
  }

  predicate FitSeq(ss: seq<F.Stmt>, loops: nat)
    decreases ss, 0
  {
    ss == [] || (Fit(ss[0], loops) && FitSeq(ss[1..], loops))
  }

  function NodeOf(e: Expr): C.Node
    requires Plain(e)
  {
    match e
    case Lit(v) => C.Const(v)
    case Ref(x, _) => C.Name(x)
    case Bin(op, l, r) => C.Binary(C.Arith(op), NodeOf(l), NodeOf(r))
    case Fallback(p, a) => C.Fallback(NodeOf(p), NodeOf(a))
  }

  function NodeOfCond(c: Cond): C.Node
    requires PlainCond(c)
  {
    match c
    case NonZero(e) => NodeOf(e)
    case Cmp(op, l, r) => C.Binary(C.Operator.Compare(op), NodeOf(l), NodeOf(r))
    case Not(d) => C.Binary(C.Logic(C.LNot), NodeOfCond(d), C.Const(0))
    case And(d, e) => C.Binary(C.Logic(C.LAnd), NodeOfCond(d), NodeOfCond(e))
    case Or(d, e) => C.Binary(C.Logic(C.LOr), NodeOfCond(d), NodeOfCond(e))
    case Xor(d, e) => C.Binary(C.Logic(C.LXor), NodeOfCond(d), NodeOfCond(e))
  }

  function NodeOfStmt(s: F.Stmt, loops: nat): C.Node
    requires Fit(s, loops)
    decreases s, 0
  {
    match s
    case Bind(x, e, _) => C.Bind(x, NodeOf(e))
    case Block(b) => C.Block(NodesOf(b, loops))
    case If(c, t, hasElse, f) => C.If(NodeOfCond(c), NodesOf(t, loops), if hasElse then NodesOf(f, loops) else [])
    case Infinite(b) => C.Loop(C.Absent, NodesOf(b, loops + 1))
    case While(c, b) => C.Loop(NodeOfCond(c), NodesOf(b, loops + 1))
    case RangeFor(x, e1, e2, e3, b) =>
      C.RangeFor(x, NodeOf(e1), NodeOf(e2), NodeOf(e3), NodesOf(b, loops + 1))
    case Break => C.Break
    case Continue(d) => C.Continue(d)
    case Return(e) => C.Return(NodeOf(e))
  }

  function NodesOf(ss: seq<F.Stmt>, loops: nat): (ns: seq<C.Node>)
    requires FitSeq(ss, loops)
    ensures |ns| == |ss|
    decreases ss, 0
  {
    if ss == [] then [] else [NodeOfStmt(ss[0], loops)] + NodesOf(ss[1..], loops)
  }

  // ----- agreement -----

  function EnvOf(st: Store): C.Env {
    map x | x in st.vars :: C.Num(st.vars[x])
  }

  /** A fault where there is no value. */
  function Ends(v: Option<i64>): C.Signal {
    if v.None? then C.Faulting else C.Done(C.Num(v.value))
  }

  /** A value counts as true unless it is 0. */
  predicate EndsCond(g: Option<bool>, sig: C.Signal) {
    if g.None? then sig == C.Faulting else sig.Done? && sig.v.Num? && (sig.v.v != 0 <==> g.value)
  }

  predicate SameEnd(sig: F.Signal, sig': C.Signal) {
    match sig
    case Normal => sig'.Done?
    case Breaking => sig' == C.Breaking
    case Continuing(d) => sig' == C.Continuing(d)
    case Returning(v) => sig' == C.Returning(C.Num(v))
    case Faulting => sig' == C.Faulting
    case OutOfFuel => sig' == C.OutOfFuel
  }

  ghost predicate SameRun(r: F.Run, o: C.Outcome) {
    && r.st.rings == map[] && o.env == EnvOf(r.st) && o.out == [] && o.fuel == r.fuel && SameEnd(r.sig, o.sig)
  }

  /** An expression that only looks: nothing is written, no round is used. */
  ghost predicate Looks(o: C.Outcome, st: Store, fuel: nat) {
    o.env == EnvOf(st) && o.out == [] && o.fuel == fuel
  }

  lemma AfterLooks(o: C.Outcome, next: C.Outcome)
    requires o.out == []
    ensures C.After(o, next) == next
  {
    assert [] + next.out == next.out;
  }

  lemma {:induction false} TwoOperands(n: C.Node, l: C.Node, r: C.Node, st: Store, fuel: nat)
    requires l < n && r < n
    requires Looks(C.Run(l, EnvOf(st), fuel), st, fuel) && Looks(C.Run(r, EnvOf(st), fuel), st, fuel)
    ensures var a, b := C.Run(l, EnvOf(st), fuel).sig, C.Run(r, EnvOf(st), fuel).sig;
            var o := C.RunTwo(n, l, r, EnvOf(st), fuel);
            Looks(o.0, st, fuel) && o.0.sig == (if a.Done? then b else a) && (a.Done? ==> o.1 == a.v)
  {
    AfterLooks(C.Run(l, EnvOf(st), fuel), C.Run(r, EnvOf(st), fuel));
  }

  lemma {:induction false} ExprRunsAlike(e: Expr, st: Store, fuel: nat)
    requires Plain(e) && st.Valid() && st.rings == map[]
    ensures Looks(C.Run(NodeOf(e), EnvOf(st), fuel), st, fuel)
    ensures C.Run(NodeOf(e), EnvOf(st), fuel).sig == Ends(Eval(e, st))
  {
    match e
    case Lit(_) =>
    case Ref(_, _) =>
    case Bin(_, l, r) =>
      ExprRunsAlike(l, st, fuel);
      ExprRunsAlike(r, st, fuel);
      TwoOperands(NodeOf(e), NodeOf(l), NodeOf(r), st, fuel);
    case Fallback(p, a) =>
      ExprRunsAlike(p, st, fuel);
      ExprRunsAlike(a, st, fuel);
      TwoOperands(NodeOf(e), NodeOf(p), NodeOf(a), st, fuel);
  }

  lemma {:induction false} CondRunsAlike(c: Cond, st: Store, fuel: nat)
    requires PlainCond(c) && st.Valid() && st.rings == map[]
    ensures Looks(C.Run(NodeOfCond(c), EnvOf(st), fuel), st, fuel)
    ensures EndsCond(EvalCond(c, st), C.Run(NodeOfCond(c), EnvOf(st), fuel).sig)
    decreases c, 1
  {
    match c
    case NonZero(e) => ExprRunsAlike(e, st, fuel);
    case Cmp(_, l, r) =>
      ExprRunsAlike(l, st, fuel);
      ExprRunsAlike(r, st, fuel);
      TwoOperands(NodeOfCond(c), NodeOf(l), NodeOf(r), st, fuel);
    case Not(d) =>
      CondRunsAlike(d, st, fuel);
      TwoOperands(NodeOfCond(c), NodeOfCond(d), C.Const(0), st, fuel);
    case And(d, e) => BothRunAlike(c, d, e, st, fuel);
    case Or(d, e) => BothRunAlike(c, d, e, st, fuel);
    case Xor(d, e) => BothRunAlike(c, d, e, st, fuel);
  }

  lemma {:induction false} BothRunAlike(c: Cond, d: Cond, e: Cond, st: Store, fuel: nat)
    requires PlainCond(c) && st.Valid() && st.rings == map[] && (c == And(d, e) || c == Or(d, e) || c == Xor(d, e))
    ensures Looks(C.Run(NodeOfCond(c), EnvOf(st), fuel), st, fuel)
    ensures EndsCond(EvalCond(c, st), C.Run(NodeOfCond(c), EnvOf(st), fuel).sig)
    decreases c, 0
  {
    CondRunsAlike(d, st, fuel);
    CondRunsAlike(e, st, fuel);
    TwoOperands(NodeOfCond(c), NodeOfCond(d), NodeOfCond(e), st, fuel);
  }

  // ----- statements -----

  /** What a statement does in the program, its node does in a task: the same variables, the same
      end, the same rounds used, and nothing written. */
  lemma {:induction false} StmtRunsAlike(s: F.Stmt, st: Store, loops: nat, fuel: nat)
    requires Fit(s, loops) && st.Valid() && st.rings == map[]
    ensures SameRun(F.Exec(s, st, loops, fuel), C.Run(NodeOfStmt(s, loops), EnvOf(st), fuel))
    decreases fuel, s, 2
  {
    match s
    case Bind(x, e, later) =>
      BindRunsAlike(x, e, later, st, loops, fuel);
    case Block(b) => SeqRunsAlike(b, st, loops, fuel);
    case If(_, _, _, _) => IfRunsAlike(s, st, loops, fuel);
    case Infinite(b) => InfiniteRunsAlike(b, st, loops, fuel);
    case While(c, b) => WhileRunsAlike(c, b, st, loops, fuel);
    case RangeFor(_, _, _, _, _) => RangeForRunsAlike(s, st, loops, fuel);
    case Break =>
    case Continue(_) =>
    case Return(e) => ExprRunsAlike(e, st, fuel);
  }

  lemma BindRunsAlike(x: string, e: Expr, later: bool, st: Store, loops: nat, fuel: nat)
    requires Plain(e) && st.Valid() && st.rings == map[]
    ensures SameRun(F.Exec(F.Bind(x, e, later), st, loops, fuel), C.Run(C.Bind(x, NodeOf(e)), EnvOf(st), fuel))
  {
    ExprRunsAlike(e, st, fuel);
    if Eval(e, st).Some? {
      assert EnvOf(F.SetVar(st, x, Eval(e, st).value)) == EnvOf(st)[x := C.Num(Eval(e, st).value)];
    }
  }

  lemma {:induction false} SeqRunsAlike(ss: seq<F.Stmt>, st: Store, loops: nat, fuel: nat)
    requires FitSeq(ss, loops) && st.Valid() && st.rings == map[]
    ensures SameRun(F.ExecSeq(ss, st, loops, fuel), C.RunSeq(NodesOf(ss, loops), EnvOf(st), fuel))
    decreases fuel, ss, 2
  {
    if ss != [] {
      StmtRunsAlike(ss[0], st, loops, fuel);
      var r := F.Exec(ss[0], st, loops, fuel);
      var ns := NodesOf(ss, loops);
      assert ns[0] == NodeOfStmt(ss[0], loops) && ns[1..] == NodesOf(ss[1..], loops);
      if r.sig == F.Normal {
        SeqRunsAlike(ss[1..], r.st, loops, r.fuel);
        AfterLooks(C.Run(ns[0], EnvOf(st), fuel), C.RunSeq(ns[1..], EnvOf(r.st), r.fuel));
      }
    }
  }

  lemma {:induction false} IfRunsAlike(s: F.Stmt, st: Store, loops: nat, fuel: nat)
    requires s.If? && Fit(s, loops) && st.Valid() && st.rings == map[]
    ensures SameRun(F.Exec(s, st, loops, fuel), C.Run(NodeOfStmt(s, loops), EnvOf(st), fuel))
    decreases fuel, s, 1
  {
    CondRunsAlike(s.cond, st, fuel);
    SeqRunsAlike(s.thn, st, loops, fuel);
    SeqRunsAlike(s.els, st, loops, fuel);
    var o := C.Run(NodeOfCond(s.cond), EnvOf(st), fuel);
    if o.sig.Done? {
      AfterLooks(o, C.RunSeq(NodesOf(s.thn, loops), EnvOf(st), fuel));
      AfterLooks(o, C.RunSeq(if s.hasElse then NodesOf(s.els, loops) else [], EnvOf(st), fuel));
    }
  }

  /** After a body, both loops go on from the same variables or leave in the same way. */
  lemma SameRound(r: F.Run, o: C.Outcome)
    requires r.st.Valid() && SameRun(r, o)
    ensures F.AfterBody(r).Again? ==> F.AfterBody(r).st == r.st && C.AfterBody(o) == C.Again(EnvOf(r.st))
    ensures F.AfterBody(r).Leave? ==> C.AfterBody(o).Leave? && SameEnd(F.AfterBody(r).sig, C.AfterBody(o).sig)
  {
    assert r.sig == F.Normal ==> F.Flush(r.st) == r.st;
  }

  lemma {:induction false} InfiniteRunsAlike(b: seq<F.Stmt>, st: Store, loops: nat, fuel: nat)
    requires FitSeq(b, loops + 1) && st.Valid() && st.rings == map[]
    ensures SameRun(F.ExecInfinite(b, st, loops, fuel),
                    C.RunLoop(C.Absent, NodesOf(b, loops + 1), EnvOf(st), fuel))
    decreases fuel, b, 3
  {
    if fuel > 0 {
      var ns := NodesOf(b, loops + 1);
      var r, o := F.ExecSeq(b, st, loops + 1, fuel - 1), C.RunSeq(ns, EnvOf(st), fuel - 1);
      SeqRunsAlike(b, st, loops + 1, fuel - 1);
      SameRound(r, o);
      if F.AfterBody(r).Again? {
        InfiniteRunsAlike(b, r.st, loops, r.fuel);
        AfterLooks(o, C.RunLoop(C.Absent, ns, EnvOf(r.st), r.fuel));
      }
      AfterLooks(C.RunCond(C.Absent, EnvOf(st), fuel - 1), C.RunLoopBody(C.Absent, ns, EnvOf(st), fuel - 1));
    }
  }

  /** A round of a loop with a condition that only looks. */
  lemma LoopRound(n: C.Node, ns: seq<C.Node>, st: Store, fuel: nat)
    requires n != C.Absent && fuel > 0 && Looks(C.Run(n, EnvOf(st), fuel - 1), st, fuel - 1)
    ensures var o := C.Run(n, EnvOf(st), fuel - 1);
            C.RunLoop(n, ns, EnvOf(st), fuel)
            == if o.sig.Done? && o.sig.v != C.Num(0) then C.RunLoopBody(n, ns, EnvOf(st), fuel - 1) else o
  {
    AfterLooks(C.Run(n, EnvOf(st), fuel - 1), C.RunLoopBody(n, ns, EnvOf(st), fuel - 1));
  }

  lemma {:induction false} WhileRunsAlike(c: Cond, b: seq<F.Stmt>, st: Store, loops: nat, fuel: nat)
    requires PlainCond(c) && FitSeq(b, loops + 1) && st.Valid() && st.rings == map[]
    ensures SameRun(F.ExecWhile(c, b, st, loops, fuel),
                    C.RunLoop(NodeOfCond(c), NodesOf(b, loops + 1), EnvOf(st), fuel))
    decreases fuel, b, 3
  {
    if fuel > 0 {
      CondRunsAlike(c, st, fuel - 1);
      LoopRound(NodeOfCond(c), NodesOf(b, loops + 1), st, fuel);
      if EvalCond(c, st) == Some(true) {
        WhileBodyRunsAlike(c, b, st, loops, fuel);
      }
    }
  }

  lemma {:induction false} WhileBodyRunsAlike(c: Cond, b: seq<F.Stmt>, st: Store, loops: nat, fuel: nat)
    requires PlainCond(c) && FitSeq(b, loops + 1) && st.Valid() && st.rings == map[]
    requires fuel > 0 && EvalCond(c, st) == Some(true)
    ensures SameRun(F.ExecWhile(c, b, st, loops, fuel),
                    C.RunLoopBody(NodeOfCond(c), NodesOf(b, loops + 1), EnvOf(st), fuel - 1))
    decreases fuel, b, 2
  {
    var n, ns := NodeOfCond(c), NodesOf(b, loops + 1);
    var r, o := F.ExecSeq(b, st, loops + 1, fuel - 1), C.RunSeq(ns, EnvOf(st), fuel - 1);
    SeqRunsAlike(b, st, loops + 1, fuel - 1);
    SameRound(r, o);
    if F.AfterBody(r).Again? {
      WhileRunsAlike(c, b, r.st, loops, r.fuel);
      AfterLooks(o, C.RunLoop(n, ns, EnvOf(r.st), r.fuel));
    }
  }

  /** The step is evaluated last, then the loop starts. */
  lemma {:induction false} StepsRunAlike(s: F.Stmt, i: i64, end: i64, st: Store, loops: nat, fuel: nat)
    requires s.RangeFor? && Fit(s, loops) && st.Valid() && st.rings == map[]
    ensures var n := NodeOfStmt(s, loops);
            var r := if Eval(s.step, st).None? then F.Run(F.Faulting, st, fuel)
                     else F.ExecRange(s.name, i, end, Eval(s.step, st).value, s.body, st, loops, fuel);
            SameRun(r, C.RunSteps(n, s.name, C.Num(i), C.Num(end), n.step, n.body, EnvOf(st), fuel))
    decreases fuel, s, 0
  {
    var n, v := NodeOfStmt(s, loops), Eval(s.step, st);
    ExprRunsAlike(s.step, st, fuel);
    if v.Some? {
      RangeRunsAlike(s.name, i, end, v.value, s.body, st, loops, fuel);
      AfterLooks(C.Run(n.step, EnvOf(st), fuel), C.RunRange(s.name, i, end, v.value, n.body, EnvOf(st), fuel));
    }
  }

  lemma {:induction false} RangeForRunsAlike(s: F.Stmt, st: Store, loops: nat, fuel: nat)
    requires s.RangeFor? && Fit(s, loops) && st.Valid() && st.rings == map[]
    ensures SameRun(F.Exec(s, st, loops, fuel), C.Run(NodeOfStmt(s, loops), EnvOf(st), fuel))
    decreases fuel, s, 1
  {
    var n, env := NodeOfStmt(s, loops), EnvOf(st);
    ExprRunsAlike(s.start, st, fuel);
    ExprRunsAlike(s.end, st, fuel);
    TwoOperands(n, n.start, n.end, st, fuel);
    var v1, v2 := Eval(s.start, st), Eval(s.end, st);
    if v1.Some? && v2.Some? {
      StepsRunAlike(s, v1.value, v2.value, st, loops, fuel);
      AfterLooks(C.RunTwo(n, n.start, n.end, env, fuel).0,
                 C.RunSteps(n, s.name, C.Num(v1.value), C.Num(v2.value), n.step, n.body, env, fuel));
    }
  }

  lemma {:induction false} RangeRunsAlike(x: string, i: i64, end: i64, step: i64, b: seq<F.Stmt>, st: Store, loops: nat,
                                          fuel: nat)
    requires FitSeq(b, loops + 1) && st.Valid() && st.rings == map[]
    ensures SameRun(F.ExecRange(x, i, end, step, b, st, loops, fuel),
                    C.RunRange(x, i, end, step, NodesOf(b, loops + 1), EnvOf(st), fuel))
    decreases fuel, b, 3
  {
    if fuel > 0 && F.RangeGoes(i, end, step) {
      var ns, st1 := NodesOf(b, loops + 1), F.SetVar(st, x, i);
      assert EnvOf(st1) == EnvOf(st)[x := C.Num(i)];
      var r, o := F.ExecSeq(b, st1, loops + 1, fuel - 1), C.RunSeq(ns, EnvOf(st1), fuel - 1);
      SeqRunsAlike(b, st1, loops + 1, fuel - 1);
      SameRound(r, o);
      if F.AfterBody(r).Again? {
        RangeRunsAlike(x, Add(i, step), end, step, b, r.st, loops, r.fuel);
        AfterLooks(o, C.RunRange(x, Add(i, step), end, step, ns, EnvOf(r.st), r.fuel));
      }
    }
  }

  // ----- the node kinds that only task bodies have -----

  /** A match runs the body of the first arm with the key, or the default if no arm has it. */
  lemma {:induction false} FirstArm(arms: seq<C.Arm>, dflt: seq<C.Node>, k: i64, i: nat)
    requires i <= |arms| && (forall j :: 0 <= j < i ==> arms[j].key != k) && (i < |arms| ==> arms[i].key == k)
    ensures C.ArmFor(arms, dflt, k) == if i < |arms| then arms[i].body else dflt
    decreases i
  {
    if i > 0 {
      FirstArm(arms[1..], dflt, k, i - 1);
    }
  }

  lemma MatchRunsFirstArm(arms: seq<C.Arm>, dflt: seq<C.Node>, k: i64, i: nat, env: C.Env, fuel: nat)
    requires i <= |arms| && (forall j :: 0 <= j < i ==> arms[j].key != k) && (i < |arms| ==> arms[i].key == k)
    ensures C.Run(C.Match(C.Const(k), arms, dflt), env, fuel)
         == C.RunSeq(if i < |arms| then arms[i].body else dflt, env, fuel)
  {
    FirstArm(arms, dflt, k, i);
    AfterLooks(C.Run(C.Const(k), env, fuel), C.RunSeq(C.ArmFor(arms, dflt, k), env, fuel));
  }

  function Numbers(vs: seq<i64>): seq<C.Value> {
    seq(|vs|, i requires 0 <= i < |vs| => C.Num(vs[i]))
  }

  /** A loop over a list whose body writes the loop variable writes the list, in order. */
  lemma {:induction false} EachEchoes(x: string, vs: seq<i64>, env: C.Env, fuel: nat)
    ensures var o := C.RunEach(x, vs, [C.Write([C.Name(x)])], env, fuel);
            o.sig == C.Done(C.Num(0)) && o.out == Numbers(vs) && o.fuel == fuel && o.env - {x} == env - {x}
    decreases |vs|
  {
    if vs != [] {
      var env' := env[x := C.Num(vs[0])];
      OneWrite(x, env', fuel);
      EachEchoes(x, vs[1..], env', fuel);
      assert env' - {x} == env - {x};
      assert Numbers(vs) == [C.Num(vs[0])] + Numbers(vs[1..]);
    }
  }

  lemma OneWrite(x: string, env: C.Env, fuel: nat)
    ensures C.RunSeq([C.Write([C.Name(x)])], env, fuel) == C.Outcome(C.Done(C.Num(0)), env, [C.Get(env, x)], fuel)
  {
    var o := C.Run(C.Name(x), env, fuel);
    assert [C.Name(x)][1..] == [];
    assert C.RunWrites([], env, fuel) == C.Outcome(C.Done(C.Num(0)), env, [], fuel);
    assert o.out + [o.sig.v] == [C.Get(env, x)] && [C.Get(env, x)] + [] == [C.Get(env, x)];
    assert C.RunWrites([C.Name(x)], env, fuel).out == [C.Get(env, x)];
  }

  /** Afterwards the loop variable is gone. */
  lemma ForEachEchoes(x: string, xs: string, vs: seq<i64>, env: C.Env, fuel: nat)
    requires xs in env && env[xs] == C.Lst(vs)
    ensures C.Run(C.ForEach(x, C.Name(xs), [C.Write([C.Name(x)])]), env, fuel)
         == C.Outcome(C.Done(C.Num(0)), env - {x}, Numbers(vs), fuel)
  {
    EachEchoes(x, vs, env, fuel);
    var o := C.RunEach(x, vs, [C.Write([C.Name(x)])], env, fuel);
    AfterLooks(C.Run(C.Name(xs), env, fuel), o.(env := o.env - {x}));
  }

  /** Several values are written from left to right. */
  lemma {:induction false} WritesInOrder(vs: seq<i64>, env: C.Env, fuel: nat)
    ensures C.RunWrites(Constants(vs), env, fuel) == C.Outcome(C.Done(C.Num(0)), env, Numbers(vs), fuel)
    decreases |vs|
  {
    if vs != [] {
      WritesInOrder(vs[1..], env, fuel);
      assert Constants(vs)[0] == C.Const(vs[0]) && Constants(vs)[1..] == Constants(vs[1..]);
      assert [] + [C.Num(vs[0])] == [C.Num(vs[0])];
      assert Numbers(vs) == [C.Num(vs[0])] + Numbers(vs[1..]);
    }
  }

  function Constants(vs: seq<i64>): seq<C.Node> {
    seq(|vs|, i requires 0 <= i < |vs| => C.Const(vs[i]))
  }
}
