/** What the parts of a program do to the store, stated about what a later read gives: bindings,
    the rounds of a loop, and the two ways to leave one. */
module FlowLaws {
  import opened Wrappers
  import opened Int64
  import RingSpec
  import opened Undef
  import opened Flow

  /** Everything but the variable or ring x is the same. */
  ghost predicate SameElsewhere(st: Store, st': Store, x: string) {
    && st.rings.Keys == st'.rings.Keys
    && (forall y :: y in st.rings && y != x ==> st'.rings[y] == st.rings[y])
    && (forall y :: y != x ==> (y in st.vars <==> y in st'.vars))
    && (forall y :: y != x && y in st.vars ==> st'.vars[y] == st.vars[y])
  }

  /** A binding of a name without a ring: the next read gives the value, and no other name has
      changed. */
  lemma BindSetsVariable(x: string, e: Expr, later: bool, st: Store, loops: nat, fuel: nat, v: i64, depth: RingSpec.u64)
    requires st.Valid() && x !in st.rings && Eval(e, st) == Some(v)
    ensures var r := Exec(Bind(x, e, later), st, loops, fuel);
            r.sig == Normal && r.fuel == fuel && Eval(Ref(x, depth), r.st) == Some(v) && SameElsewhere(st, r.st, x)
  {
  }

  /** A binding of a ring appends to the committed values, or, if it is to be applied later, to
      the values that wait; no variable and no other ring has changed. */
  lemma BindWritesRing(x: string, e: Expr, later: bool, st: Store, loops: nat, fuel: nat, v: i64,
                       log: seq<i64>, pend: seq<i64>)
    requires st.Valid() && x in st.rings && Eval(e, st) == Some(v) && RingSpec.Represents(st.rings[x], log, pend)
    requires st.rings[x].head + 1 < TWO64 && st.rings[x].count + 1 < TWO64
    ensures var r := Exec(Bind(x, e, later), st, loops, fuel);
            && r.sig == Normal && r.fuel == fuel && SameElsewhere(st, r.st, x) && r.st.vars == st.vars
            && x in r.st.rings
            && (later ==> RingSpec.Represents(r.st.rings[x], log, pend + [v]))
            && (!later ==> RingSpec.Represents(r.st.rings[x], log + [v], pend))
  {
    RingSpec.WriteExact(st.rings[x], log, pend, v);
    RingSpec.WritePendingExact(st.rings[x], log, pend, v);
  }

  /** A read of a ring that stands for some committed values gives the newest of them, whatever
      waits. */
  lemma RefReadsRing(x: string, st: Store, log: seq<i64>, pend: seq<i64>, depth: RingSpec.u64)
    requires st.Valid() && x in st.rings && RingSpec.Represents(st.rings[x], log, pend)
    requires 1 <= depth <= st.rings[x].cap
    ensures Eval(Ref(x, depth), st) == Some(if depth <= |log| then log[|log| - depth] else 0)
  {
    RingSpec.ReadRefines(st.rings[x], log, pend, depth);
  }

  /** A direct write is seen by the next read, a pending one is not. */
  lemma NextReadOfRing(x: string, e: Expr, later: bool, st: Store, loops: nat, fuel: nat, v: i64,
                       log: seq<i64>, pend: seq<i64>)
    requires st.Valid() && x in st.rings && Eval(e, st) == Some(v) && RingSpec.Represents(st.rings[x], log, pend)
    requires st.rings[x].head + 1 < TWO64 && st.rings[x].count + 1 < TWO64
    ensures Eval(Ref(x, 1), Exec(Bind(x, e, later), st, loops, fuel).st) == Some(if later then log[|log| - 1] else v)
  {
    BindWritesRing(x, e, later, st, loops, fuel, v, log, pend);
    var st' := Exec(Bind(x, e, later), st, loops, fuel).st;
    RefReadsRing(x, st', if later then log else log + [v], if later then pend + [v] else pend, 1);
  }

  // ----- a whole body of writes -----

  /** A body that writes these values to the ring x, at once or later. */
  function Body(x: string, ops: seq<RingSpec.Op>): seq<Stmt>
    requires forall k :: 0 <= k < |ops| ==> !ops[k].CommitAll?
  {
    if ops == [] then [] else [Bind(x, Lit(ops[0].v), ops[0].Pending?)] + Body(x, ops[1..])
  }

  lemma BindIsRingStep(x: string, op: RingSpec.Op, st: Store, loops: nat, fuel: nat)
    requires st.Valid() && x in st.rings && !op.CommitAll?
    ensures Exec(Bind(x, Lit(op.v), op.Pending?), st, loops, fuel)
         == Run(Normal, st.(rings := st.rings[x := RingSpec.Step(st.rings[x], op)]), fuel)
  {
  }

  lemma {:induction false} BodyIsRingRun(x: string, ops: seq<RingSpec.Op>, st: Store, loops: nat, fuel: nat)
    requires st.Valid() && x in st.rings && forall k :: 0 <= k < |ops| ==> !ops[k].CommitAll?
    ensures ExecSeq(Body(x, ops), st, loops, fuel)
         == Run(Normal, st.(rings := st.rings[x := RingSpec.Run(st.rings[x], ops)]), fuel)
    decreases |ops|
  {
    if ops == [] {
      assert st.rings[x := st.rings[x]] == st.rings;
    } else {
      BindIsRingStep(x, ops[0], st, loops, fuel);
      var r := RingSpec.Step(st.rings[x], ops[0]);
      var st' := st.(rings := st.rings[x := r]);
      BodyIsRingRun(x, ops[1..], st', loops, fuel);
      assert Body(x, ops)[1..] == Body(x, ops[1..]);
      assert st.rings[x := r][x := RingSpec.Run(r, ops[1..])] == st.rings[x := RingSpec.Run(r, ops[1..])];
    }
  }

  lemma {:induction false} RunThen(r: RingSpec.Ring, ops: seq<RingSpec.Op>, op: RingSpec.Op)
    requires r.Shaped()
    ensures RingSpec.Run(r, ops + [op]) == RingSpec.Step(RingSpec.Run(r, ops), op)
    decreases |ops|
  {
    if ops == [] {
      assert [op][1..] == [];
    } else {
      RunThen(RingSpec.Step(r, ops[0]), ops[1..], op);
      assert (ops + [op])[1..] == ops[1..] + [op];
    }
  }

  /** A round of a loop with such a body: when the body has ended, what waited has been committed
      behind what was written at once, and reads see all of it; no other variable has changed. */
  lemma RoundCommits(x: string, ops: seq<RingSpec.Op>, st: Store, loops: nat, fuel: nat,
                     log: seq<i64>, pend: seq<i64>, depth: RingSpec.u64)
    requires st.Valid() && x in st.rings && RingSpec.Represents(st.rings[x], log, pend)
    requires forall k :: 0 <= k < |ops| ==> !ops[k].CommitAll?
    requires st.rings[x].head + st.rings[x].count + |ops| < TWO64 && 1 <= depth <= st.rings[x].cap
    ensures var r := ExecSeq(Body(x, ops), st, loops, fuel);
            var all := log + Values(ops, false) + (pend + Values(ops, true));
            && AfterBody(r).Again? && r.fuel == fuel && AfterBody(r).st.vars == st.vars
            && Eval(Ref(x, depth), AfterBody(r).st) == Some(if depth <= |all| then all[|all| - depth] else 0)
  {
    var done := ops + [RingSpec.CommitAll];
    BodyIsRingRun(x, ops, st, loops, fuel);
    RunThen(st.rings[x], ops, RingSpec.CommitAll);
    WritesOf(ops);
    RingSpec.RunRefines(st.rings[x], RingSpec.Plain(log, pend), done);
    PlainOf(RingSpec.Plain(log, pend), ops);
    var st' := AfterBody(ExecSeq(Body(x, ops), st, loops, fuel)).st;
    RefReadsRing(x, st', log + Values(ops, false) + (pend + Values(ops, true)), [], depth);
  }

  /** The values written at once, or those that wait. */
  function Values(ops: seq<RingSpec.Op>, later: bool): seq<i64>
    requires forall k :: 0 <= k < |ops| ==> !ops[k].CommitAll?
  {
    if ops == [] then [] else (if ops[0].Pending? == later then [ops[0].v] else []) + Values(ops[1..], later)
  }

  lemma {:induction false} WritesOf(ops: seq<RingSpec.Op>)
    requires forall k :: 0 <= k < |ops| ==> !ops[k].CommitAll?
    ensures RingSpec.Writes(ops + [RingSpec.CommitAll]) == |ops|
    decreases |ops|
  {
    if ops == [] {
      assert [RingSpec.CommitAll][1..] == [];
    } else {
      assert (ops + [RingSpec.CommitAll])[1..] == ops[1..] + [RingSpec.CommitAll];
      WritesOf(ops[1..]);
    }
  }

  lemma {:induction false} PlainOf(p: RingSpec.Plain, ops: seq<RingSpec.Op>)
    requires forall k :: 0 <= k < |ops| ==> !ops[k].CommitAll?
    ensures RingSpec.PlainRun(p, ops + [RingSpec.CommitAll])
         == RingSpec.Plain(p.log + Values(ops, false) + (p.pend + Values(ops, true)), [])
    decreases |ops|
  {
    if ops == [] {
      assert [RingSpec.CommitAll][1..] == [];
      assert p.log + [] == p.log && p.pend + [] == p.pend;
    } else {
      var p' := RingSpec.PlainStep(p, ops[0]);
      PlainOf(p', ops[1..]);
      assert (ops + [RingSpec.CommitAll])[1..] == ops[1..] + [RingSpec.CommitAll];
      assert p'.log + Values(ops[1..], false) == p.log + Values(ops, false);
      assert p'.pend + Values(ops[1..], true) == p.pend + Values(ops, true);
    }
  }

  /** A round that `continue` ends commits nothing: reads still miss what waits. */
  lemma ContinueCommitsNothing(x: string, ops: seq<RingSpec.Op>, st: Store, loops: nat, fuel: nat)
    requires st.Valid() && x in st.rings && loops > 0 && forall k :: 0 <= k < |ops| ==> !ops[k].CommitAll?
    ensures var r := ExecSeq(Body(x, ops) + [Continue(1)], st, loops, fuel);
            && r.sig == Continuing(1) && AfterBody(r) == Again(r.st)
            && r.st == st.(rings := st.rings[x := RingSpec.Run(st.rings[x], ops)])
  {
    BodyIsRingRun(x, ops, st, loops, fuel);
    SeqAppend(Body(x, ops), [Continue(1)], st, loops, fuel);
  }

  lemma {:induction false} SeqAppend(a: seq<Stmt>, b: seq<Stmt>, st: Store, loops: nat, fuel: nat)
    requires st.Valid()
    ensures var r := ExecSeq(a, st, loops, fuel);
            ExecSeq(a + b, st, loops, fuel) == if r.sig == Normal then ExecSeq(b, r.st, loops, r.fuel) else r
    decreases |a|
  {
    if a == [] {
      assert a + b == b;
    } else {
      assert (a + b)[1..] == a[1..] + b;
      var r := Exec(a[0], st, loops, fuel);
      SeqAppend(a[1..], b, r.st, loops, r.fuel);
    }
  }

  // ----- branches, and the ends of loops -----

  lemma BranchTaken(c: Cond, thn: seq<Stmt>, hasElse: bool, els: seq<Stmt>, st: Store, loops: nat, fuel: nat, g: bool)
    requires st.Valid() && EvalCond(c, st) == Some(g)
    ensures var r := Exec(If(c, thn, hasElse, els), st, loops, fuel);
            && (g ==> r == ExecSeq(thn, st, loops, fuel))
            && (!g && hasElse ==> r == ExecSeq(els, st, loops, fuel))
            && (!g && !hasElse ==> r == Run(Normal, st, fuel))
  {
  }

  /** How a loop without condition goes on after its first round: a break ends it, a continue of
      depth 1 starts the next round at once, a deeper one and a return leave it. */
  lemma RoundEnds(b: seq<Stmt>, st: Store, loops: nat, fuel: nat)
    requires st.Valid() && fuel > 0
    ensures var r, whole := ExecSeq(b, st, loops + 1, fuel - 1), Exec(Infinite(b), st, loops, fuel);
            && (r.sig == Breaking ==> whole == Run(Normal, r.st, r.fuel))
            && (r.sig == Continuing(1) ==> whole == Exec(Infinite(b), r.st, loops, r.fuel))
            && (r.sig.Continuing? && r.sig.depth > 1 ==> whole == Run(Continuing(r.sig.depth - 1), r.st, r.fuel))
            && (r.sig.Returning? || r.sig == Faulting || r.sig == OutOfFuel ==> whole == r)
            && (r.sig == Normal ==> exists st': Store :: st'.Valid() && whole == Exec(Infinite(b), st', loops, r.fuel)
                                                 && st'.vars == r.st.vars)
  {
    var r := ExecSeq(b, st, loops + 1, fuel - 1);
    if r.sig == Normal {
      assert Exec(Infinite(b), st, loops, fuel) == Exec(Infinite(b), Flush(r.st), loops, r.fuel);
    }
  }

  ghost predicate NeverBreaks(b: seq<Stmt>, loops: nat) {
    forall st: Store, fuel: nat :: st.Valid() ==> ExecSeq(b, st, loops, fuel).sig != Breaking
  }

  /** A while loop whose body never breaks ends with its condition false. */
  lemma {:induction false} WhileEndsFalse(c: Cond, b: seq<Stmt>, st: Store, loops: nat, fuel: nat)
    requires st.Valid()
    requires NeverBreaks(b, loops + 1)
    ensures var r := Exec(While(c, b), st, loops, fuel);
            r.sig == Normal ==> EvalCond(c, r.st) == Some(false)
    decreases fuel
  {
    if fuel > 0 && EvalCond(c, st) == Some(true) {
      var r := ExecSeq(b, st, loops + 1, fuel - 1);
      if AfterBody(r).Again? {
        WhileEndsFalse(c, b, AfterBody(r).st, loops, r.fuel);
      }
    }
  }

  /** A break or continue that names no loop does nothing. */
  lemma NowhereToGo(d: nat, st: Store, loops: nat, fuel: nat)
    requires st.Valid()
    ensures Exec(Break, st, 0, fuel) == Run(Normal, st, fuel)
    ensures Exec(Continue(d), st, loops, fuel).sig == (if 1 <= d <= loops then Continuing(d) else Normal)
    ensures loops > 0 ==> Exec(Break, st, loops, fuel).sig == Breaking
  {
  }
}
