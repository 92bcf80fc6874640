/** Structured control flow: statements and what running them means. A run is given a budget of
    loop rounds, so that running is a total function; a program terminates when some budget is
    enough. */
module Flow {
  import opened Int64
  import opened RingSpec
  import opened Undef

  /** Statements after name resolution: every name is one slot (see the README). */
  datatype Stmt =
    | Bind(name: string, e: Expr, later: bool)
    | Block(stmts: seq<Stmt>)
    | If(cond: Cond, thn: seq<Stmt>, hasElse: bool, els: seq<Stmt>)
    | Infinite(body: seq<Stmt>)
    | While(cond: Cond, body: seq<Stmt>)
    | RangeFor(name: string, start: Expr, end: Expr, step: Expr, body: seq<Stmt>)
    | Break
    | Continue(depth: nat)
    | Return(e: Expr)

  // ----- effects on the store -----

  function SetVar(st: Store, x: string, v: i64): (st': Store)
    requires st.Valid()
    ensures st'.Valid()
  {
    st.(vars := st.vars[x := v])
  }

  /** A binding of a ring name writes the ring, at once or pending; any other name is a slot. */
  function Assign(st: Store, x: string, v: i64, later: bool): (st': Store)
    requires st.Valid()
    ensures st'.Valid()
  {
    if x in st.rings then
      var r := st.rings[x];
      st.(rings := st.rings[x := if later then WritePending(r, v) else Write(r, v)])
    else SetVar(st, x, v)
  }

  /** Commits what is pending on every ring. */
  function Flush(st: Store): (st': Store)
    requires st.Valid()
    ensures st'.Valid()
  {
    st.(rings := map x | x in st.rings :: RingSpec.Commit(st.rings[x]))
  }

  /** Whatever order the rings are listed in, committing them one by one is `Flush`. */
  lemma FlushIsAnyOrder(st: Store, names: seq<string>)
    requires st.Valid()
    requires forall i, j :: 0 <= i < j < |names| ==> names[i] != names[j]
    requires forall x :: x in st.rings ==> x in names
    ensures Flush(st).rings == CommitNames(st.rings, names)
  {
    CommitNamesPointwise(st.rings, names);
  }

  // ----- running -----

  datatype Signal =
    | Normal
    | Breaking
    | Continuing(depth: nat)
    | Returning(v: i64)
    | Faulting
    | OutOfFuel

  datatype Run = Run(sig: Signal, st: Store, fuel: nat)

  /** What a loop does when its body has ended. */
  datatype After = Again(st: Store) | Leave(sig: Signal)

  /** Only a body that runs to its end commits the pending writes; `continue` does not. */
  function AfterBody(r: Run): (a: After)
    requires r.st.Valid()
    ensures a.Again? ==> a.st.Valid()
  {
    match r.sig
    case Normal => Again(Flush(r.st))
    case Breaking => Leave(Normal)
    case Continuing(d) => if d <= 1 then Again(r.st) else Leave(Continuing(d - 1))
    case _ => Leave(r.sig)
  }

  predicate RangeGoes(i: i64, end: i64, step: i64) {
    step != 0 && if step > 0 then i <= end else i >= end
  }

  function Exec(s: Stmt, st: Store, loops: nat, fuel: nat): (r: Run)
    requires st.Valid()
    ensures r.st.Valid() && r.fuel <= fuel && (r.sig == OutOfFuel ==> r.fuel == 0)
    decreases fuel, s, 0
  {
    match s
    case Bind(x, e, later) =>
      var v := Eval(e, st);
      if v.None? then Run(Faulting, st, fuel) else Run(Normal, Assign(st, x, v.value, later), fuel)
    case Block(b) => ExecSeq(b, st, loops, fuel)
    case If(c, thn, hasElse, els) =>
      var g := EvalCond(c, st);
      if g.None? then Run(Faulting, st, fuel)
      else if g.value then ExecSeq(thn, st, loops, fuel)
      else if hasElse then ExecSeq(els, st, loops, fuel)
      else Run(Normal, st, fuel)
    case Infinite(b) => ExecInfinite(b, st, loops, fuel)
    case While(c, b) => ExecWhile(c, b, st, loops, fuel)
    case RangeFor(x, e1, e2, e3, b) =>
      var i, end, step := Eval(e1, st), Eval(e2, st), Eval(e3, st);
      if i.None? || end.None? || step.None? then Run(Faulting, st, fuel)
      else ExecRange(x, i.value, end.value, step.value, b, st, loops, fuel)
    case Break => Run(if loops == 0 then Normal else Breaking, st, fuel)
    case Continue(d) => Run(if d == 0 || d > loops then Normal else Continuing(d), st, fuel)
    case Return(e) =>
      var v := Eval(e, st);
      Run(if v.None? then Faulting else Returning(v.value), st, fuel)
  }

  function ExecSeq(ss: seq<Stmt>, st: Store, loops: nat, fuel: nat): (r: Run)
    requires st.Valid()
    ensures r.st.Valid() && r.fuel <= fuel && (r.sig == OutOfFuel ==> r.fuel == 0)
    decreases fuel, ss, 0
  {
    if ss == [] then Run(Normal, st, fuel)
    else
      var r := Exec(ss[0], st, loops, fuel);
      if r.sig == Normal then ExecSeq(ss[1..], r.st, loops, r.fuel) else r
  }

  function ExecInfinite(b: seq<Stmt>, st: Store, loops: nat, fuel: nat): (r: Run)
    requires st.Valid()
    ensures r.st.Valid() && r.fuel <= fuel && (r.sig == OutOfFuel ==> r.fuel == 0)
    decreases fuel, b, 1
  {
    if fuel == 0 then Run(OutOfFuel, st, 0)
    else
      var r := ExecSeq(b, st, loops + 1, fuel - 1);
      match AfterBody(r)
      case Again(st') => ExecInfinite(b, st', loops, r.fuel)
      case Leave(sig) => Run(sig, r.st, r.fuel)
  }

  function ExecWhile(c: Cond, b: seq<Stmt>, st: Store, loops: nat, fuel: nat): (r: Run)
    requires st.Valid()
    ensures r.st.Valid() && r.fuel <= fuel && (r.sig == OutOfFuel ==> r.fuel == 0)
    decreases fuel, b, 1
  {
    if fuel == 0 then Run(OutOfFuel, st, 0)
    else
      var g := EvalCond(c, st);
      if g.None? then Run(Faulting, st, fuel - 1)
      else if !g.value then Run(Normal, st, fuel - 1)
      else
        var r := ExecSeq(b, st, loops + 1, fuel - 1);
        match AfterBody(r)
        case Again(st') => ExecWhile(c, b, st', loops, r.fuel)
        case Leave(sig) => Run(sig, r.st, r.fuel)
  }

  /** The rounds of a range loop from the value i on. The value lives in a slot of its own; the
      loop variable is only a copy. */
  function ExecRange(x: string, i: i64, end: i64, step: i64, b: seq<Stmt>, st: Store, loops: nat, fuel: nat): (r: Run)
    requires st.Valid()
    ensures r.st.Valid() && r.fuel <= fuel && (r.sig == OutOfFuel ==> r.fuel == 0)
    decreases fuel, b, 1
  {
    if fuel == 0 then Run(OutOfFuel, st, 0)
    else if !RangeGoes(i, end, step) then Run(Normal, st, fuel - 1)
    else
      var r := ExecSeq(b, SetVar(st, x, i), loops + 1, fuel - 1);
      match AfterBody(r) {
        case Again(st') => ExecRange(x, Add(i, step), end, step, b, st', loops, r.fuel)
        case Leave(sig) => Run(sig, r.st, r.fuel)
      }
  }
}
