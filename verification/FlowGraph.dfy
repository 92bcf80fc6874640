/** The emitted graph of basic blocks, and the machine that runs it. Terminators are ordinary
    instructions here, so a block with none, or with code behind one, can be written down; that
    the emission never produces such a block is a theorem. */
module FlowGraph {
  import opened Int64
  import opened Undef
  import opened Flow

  type Label = nat

  datatype Instr =
    | IBind(name: string, e: Expr, later: bool)
    | IFlush
    | IRange(h: Label, start: Expr, end: Expr, step: Expr)
    | ILoopVar(name: string, h: Label)
    | IAdvance(h: Label)
    | Br(to: Label)
    | CondBr(cond: Cond, onTrue: Label, onFalse: Label)
    | RangeBr(h: Label, onTrue: Label, onFalse: Label)
    | Ret(e: Expr)
    | RetMain

  predicate IsTerminator(i: Instr) {
    i.Br? || i.CondBr? || i.RangeBr? || i.Ret? || i.RetMain?
  }

  type Code = seq<Instr>

  type Graph = seq<Code>

  /** A block under construction, as the builder sees it: is its last instruction a terminator? */
  predicate Terminated(code: Code) {
    code != [] && IsTerminator(code[|code| - 1])
  }

  /** No terminator anywhere. */
  predicate Open(code: Code) {
    forall i :: 0 <= i < |code| ==> !IsTerminator(code[i])
  }

  /** Exactly one terminator, at the end. */
  predicate Closed(code: Code) {
    Terminated(code) && forall i :: 0 <= i < |code| - 1 ==> !IsTerminator(code[i])
  }

  predicate TargetsBelow(i: Instr, n: nat) {
    match i
    case Br(l) => l < n
    case CondBr(_, l1, l2) => l1 < n && l2 < n
    case RangeBr(_, l1, l2) => l1 < n && l2 < n
    case _ => true
  }

  // ----- running -----

  /** The words a range loop keeps outside the named slots: its position, end and step. */
  datatype Range = Range(i: i64, end: i64, step: i64)

  type Temps = map<Label, Range>

  datatype Final = Finished(st: Store) | Returned(v: i64, st: Store) | Faulted(st: Store) | Stuck

  datatype Config = At(block: Label, pc: nat, st: Store, temps: Temps) | Done(f: Final) {
    ghost predicate Valid() {
      At? ==> st.Valid()
    }
  }

  function StepInstr(i: Instr, c: Config): (c': Config)
    requires c.At? && c.Valid()
    ensures c'.Valid()
  {
    var st := c.st;
    match i
    case IBind(x, e, later) =>
      var v := Eval(e, st);
      if v.None? then Done(Faulted(st)) else c.(st := Assign(st, x, v.value, later), pc := c.pc + 1)
    case IFlush => c.(st := Flush(st), pc := c.pc + 1)
    case IRange(h, e1, e2, e3) =>
      var v1, v2, v3 := Eval(e1, st), Eval(e2, st), Eval(e3, st);
      if v1.None? || v2.None? || v3.None? then Done(Faulted(st))
      else c.(temps := c.temps[h := Range(v1.value, v2.value, v3.value)], pc := c.pc + 1)
    case ILoopVar(x, h) =>
      if h !in c.temps then Done(Stuck) else c.(st := SetVar(st, x, c.temps[h].i), pc := c.pc + 1)
    case IAdvance(h) =>
      if h !in c.temps then Done(Stuck)
      else
        var t := c.temps[h];
        c.(temps := c.temps[h := t.(i := Add(t.i, t.step))], pc := c.pc + 1)
    case Br(l) => At(l, 0, st, c.temps)
    case CondBr(cond, l1, l2) =>
      var g := EvalCond(cond, st);
      if g.None? then Done(Faulted(st)) else At(if g.value then l1 else l2, 0, st, c.temps)
    case RangeBr(h, l1, l2) =>
      if h !in c.temps then Done(Stuck)
      else At(if RangeGoes(c.temps[h].i, c.temps[h].end, c.temps[h].step) then l1 else l2, 0, st, c.temps)
    case Ret(e) =>
      var v := Eval(e, st);
      Done(if v.None? then Faulted(st) else Returned(v.value, st))
    case RetMain => Done(Finished(st))
  }

  function Step(g: Graph, c: Config): (c': Config)
    requires c.Valid()
    ensures c'.Valid()
  {
    if c.Done? then c
    else if c.block < |g| && c.pc < |g[c.block]| then StepInstr(g[c.block][c.pc], c)
    else Done(Stuck)
  }

  function Steps(g: Graph, c: Config, k: nat): (c': Config)
    requires c.Valid()
    ensures c'.Valid()
    decreases k
  {
    if k == 0 then c else Steps(g, Step(g, c), k - 1)
  }

  lemma {:induction false} StepsCompose(g: Graph, c: Config, k1: nat, k2: nat)
    requires c.Valid()
    ensures Steps(g, c, k1 + k2) == Steps(g, Steps(g, c, k1), k2)
    decreases k1
  {
    if k1 > 0 {
      StepsCompose(g, Step(g, c), k1 - 1, k2);
    }
  }

  lemma {:induction false} DoneStays(g: Graph, c: Config, k: nat)
    requires c.Done?
    ensures Steps(g, c, k) == c
  {
    if k > 0 {
      DoneStays(g, c, k - 1);
    }
  }
}
