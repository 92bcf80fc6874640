/** Running the emitted graph is running the program. The simulation lemmas follow the compile
    functions: from the place where the code of a statement begins, the machine reaches the
    place its signal calls for, in at least as many steps as the run used loop rounds. */
module FlowProof {
  import opened Wrappers
  import opened Undef
  import opened Flow
  import opened FlowGraph
  import opened FlowCompile
  import opened FlowShape

  // ----- the emitted code is in the final graph -----

  lemma GrownExtends(g: Gen, g': Gen)
    requires Grown(g, g')
    ensures Extends(g.blocks, g'.blocks)
  {
  }

  lemma ExtendsTrans(b1: Graph, b2: Graph, b3: Graph)
    requires Extends(b1, b2) && Extends(b2, b3)
    ensures Extends(b1, b3)
  {
    forall l | 0 <= l < |b1| ensures b1[l] <= b3[l] {
      assert b1[l] <= b2[l] <= b3[l];
    }
  }

  lemma EmitExtends(g: Gen, i: Instr)
    requires g.Valid()
    ensures Extends(g.blocks, Emit(g, i).blocks)
  {
  }

  /** The code at label l of the final graph begins like this. */
  ghost predicate CodeAt(G: Graph, l: Label, code: Code) {
    l < |G| && code <= G[l]
  }

  lemma CodeIn(b: Graph, G: Graph, l: Label)
    requires Extends(b, G) && l < |b|
    ensures CodeAt(G, l, b[l])
  {
  }

  lemma RunCode(G: Graph, code: Code, c: Config)
    requires c.At? && c.Valid() && CodeAt(G, c.block, code) && c.pc < |code|
    ensures Steps(G, c, 1) == StepInstr(code[c.pc], c)
  {
    assert G[c.block][c.pc] == code[c.pc];
    assert Steps(G, Step(G, c), 0) == Step(G, c);
  }

  lemma Chain(G: Graph, c: Config, k1: nat, c1: Config, k2: nat)
    requires c.Valid() && Steps(G, c, k1) == c1
    ensures c1.Valid() && Steps(G, c, k1 + k2) == Steps(G, c1, k2)
  {
    StepsCompose(G, c, k1, k2);
  }

  // ----- where a run ends up -----

  ghost predicate Agree(t1: Temps, t2: Temps, n: nat) {
    forall h: Label :: h < n ==> (h in t1 <==> h in t2) && (h in t1 ==> t1[h] == t2[h])
  }

  ghost predicate AtPlace(c: Config, l: Label, pc: nat, st: Store, temps: Temps, n: nat) {
    c.At? && c == At(l, pc, st, c.temps) && Agree(c.temps, temps, n)
  }

  /** The configuration matches the signal: a normal end continues at (l, pc), a break or
      continue at the target of the frame it names; what outer loops keep is untouched. */
  ghost predicate Lands(c: Config, r: Run, l: Label, pc: nat, fs: seq<LoopFrame>, temps: Temps, n: nat) {
    match r.sig
    case Normal => AtPlace(c, l, pc, r.st, temps, n)
    case Breaking => fs != [] && AtPlace(c, fs[|fs| - 1].breakTo, 0, r.st, temps, n)
    case Continuing(d) => 1 <= d <= |fs| && AtPlace(c, fs[|fs| - d].continueTo, 0, r.st, temps, n)
    case Returning(v) => c == Done(Returned(v, r.st))
    case Faulting => c == Done(Faulted(r.st))
    case OutOfFuel => c.At?
  }

  lemma LandsWeaker(c: Config, r: Run, l: Label, pc: nat, fs: seq<LoopFrame>, t1: Temps, n1: nat, t2: Temps, n2: nat)
    requires Lands(c, r, l, pc, fs, t1, n1) && n2 <= n1 && Agree(t1, t2, n2)
    ensures Lands(c, r, l, pc, fs, t2, n2)
  {
  }

  /** Steps to c1, and from there to where r lands. */
  lemma LandsAfter(G: Graph, c: Config, k1: nat, c1: Config, k2: nat, r: Run, l: Label, pc: nat, fs: seq<LoopFrame>,
                   n1: nat, n: nat)
    requires c.At? && c.Valid() && Steps(G, c, k1) == c1 && c1.At? && c1.Valid()
    requires Lands(Steps(G, c1, k2), r, l, pc, fs, c1.temps, n1) && n <= n1 && Agree(c1.temps, c.temps, n)
    ensures Lands(Steps(G, c, k1 + k2), r, l, pc, fs, c.temps, n)
  {
    Chain(G, c, k1, c1, k2);
    LandsWeaker(Steps(G, c1, k2), r, l, pc, fs, c1.temps, n1, c.temps, n);
  }

  /** A run that does not end normally took one step more than it used loop rounds. */
  function Cost(r: Run, fuel: nat): int {
    fuel - r.fuel + if r.sig == Normal then 0 else 1
  }

  ghost predicate Starts(c: Config, g: Gen) {
    g.Valid() && c.At? && c.Valid() && c.block == g.cur && c.pc == |g.Code()|
  }

  // ----- statements -----

  /** One emitted instruction. */
  lemma SimPlain(G: Graph, g: Gen, i: Instr, c: Config)
    requires g.Valid() && Extends(Emit(g, i).blocks, G) && Starts(c, g)
    ensures Steps(G, c, 1) == StepInstr(i, c)
  {
    CodeIn(Emit(g, i).blocks, G, g.cur);
    RunCode(G, g.Code() + [i], c);
  }

  /** A statement that leaves: its block ends with a branch to a frame, or with a return. */
  lemma SimLeave(G: Graph, s: Stmt, g: Gen, fs: seq<LoopFrame>, c: Config, fuel: nat) returns (k: nat)
    requires s.Break? || s.Continue? || s.Return?
    requires Ready(g, fs) && Starts(c, g) && Extends(CompileStmt(s, g, fs).blocks, G)
    ensures var r, g' := Exec(s, c.st, |fs|, fuel), CompileStmt(s, g, fs);
            && Lands(Steps(G, c, k), r, g'.cur, |g'.Code()|, fs, c.temps, |g.blocks|)
            && (r.sig == Normal ==> !Terminated(g'.Code()))
            && k >= Cost(r, fuel)
  {
    k := 1;
    OpenIsNotTerminated(g.Code());
    match s
    case Break =>
      if fs == [] {
        k := 0;
      } else {
        SimPlain(G, g, Br(fs[|fs| - 1].breakTo), c);
      }
    case Continue(d) =>
      if fs == [] || d == 0 || d > |fs| {
        k := 0;
      } else {
        SimPlain(G, g, Br(fs[|fs| - d].continueTo), c);
      }
    case Return(e) => SimPlain(G, g, Ret(e), c);
  }

  lemma {:induction false} SimStmt(G: Graph, s: Stmt, g: Gen, fs: seq<LoopFrame>, c: Config, fuel: nat) returns (k: nat)
    requires Ready(g, fs) && Starts(c, g) && Extends(CompileStmt(s, g, fs).blocks, G)
    ensures var r, g' := Exec(s, c.st, |fs|, fuel), CompileStmt(s, g, fs);
            && Lands(Steps(G, c, k), r, g'.cur, |g'.Code()|, fs, c.temps, |g.blocks|)
            && (r.sig == Normal ==> !Terminated(g'.Code()))
            && k >= Cost(r, fuel)
    decreases fuel, s, 4
  {
    k := 1;
    OpenIsNotTerminated(g.Code());
    match s
    case Bind(x, e, later) =>
      SimPlain(G, g, IBind(x, e, later), c);
    case Block(b) => k := SimSeq(G, b, g, fs, c, fuel);
    case If(_, _, _, _) =>
      IfLeaves(s, g, fs);
      k := SimIf(G, s, g, fs, c, fuel);
    case Infinite(_) =>
      InfiniteExit(s, g, fs);
      k := SimInfiniteEntry(G, s, g, fs, c, fuel);
    case While(_, _) =>
      WhileExit(s, g, fs);
      k := SimWhileEntry(G, s, g, fs, c, fuel);
    case RangeFor(_, _, _, _, _) =>
      RangeExit(s, g, fs);
      k := SimRangeEntry(G, s, g, fs, c, fuel);
    case Break => k := SimLeave(G, s, g, fs, c, fuel);
    case Continue(_) => k := SimLeave(G, s, g, fs, c, fuel);
    case Return(_) => k := SimLeave(G, s, g, fs, c, fuel);
  }

  lemma SeqStages(G: Graph, ss: seq<Stmt>, g: Gen, fs: seq<LoopFrame>)
    requires ss != [] && Ready(g, fs) && Extends(CompileSeq(ss, g, fs).blocks, G)
    ensures var g1 := CompileStmt(ss[0], g, fs);
            && Extends(g1.blocks, G)
            && (Terminated(g1.Code()) ==> CompileSeq(ss, g, fs) == g1)
            && (!Terminated(g1.Code()) ==> Ready(g1, fs) && CompileSeq(ss, g, fs) == CompileSeq(ss[1..], g1, fs))
  {
    var g1 := CompileStmt(ss[0], g, fs);
    StmtGrows(ss[0], g, fs);
    OpenIsNotTerminated(g1.Code());
    if !Terminated(g1.Code()) {
      FramesGrow(fs, |g.blocks|, |g1.blocks|);
      SeqGrows(ss[1..], g1, fs);
      GrownExtends(g1, CompileSeq(ss[1..], g1, fs));
      ExtendsTrans(g1.blocks, CompileSeq(ss, g, fs).blocks, G);
    }
  }

  lemma {:induction false} SimSeq(G: Graph, ss: seq<Stmt>, g: Gen, fs: seq<LoopFrame>, c: Config, fuel: nat)
    returns (k: nat)
    requires Ready(g, fs) && Starts(c, g) && Extends(CompileSeq(ss, g, fs).blocks, G)
    ensures var r, g' := ExecSeq(ss, c.st, |fs|, fuel), CompileSeq(ss, g, fs);
            && Lands(Steps(G, c, k), r, g'.cur, |g'.Code()|, fs, c.temps, |g.blocks|)
            && (r.sig == Normal ==> !Terminated(g'.Code()))
            && k >= Cost(r, fuel)
    decreases fuel, ss, 0
  {
    if ss == [] {
      OpenIsNotTerminated(g.Code());
      k := 0;
    } else {
      var g1 := CompileStmt(ss[0], g, fs);
      SeqStages(G, ss, g, fs);
      k := SimStmt(G, ss[0], g, fs, c, fuel);
      var r1, c1 := Exec(ss[0], c.st, |fs|, fuel), Steps(G, c, k);
      if r1.sig == Normal {
        var k2 := SimSeq(G, ss[1..], g1, fs, c1, r1.fuel);
        LandsAfter(G, c, k, c1, k2, ExecSeq(ss[1..], r1.st, |fs|, r1.fuel),
                   CompileSeq(ss, g, fs).cur, |CompileSeq(ss, g, fs).Code()|, fs, |g1.blocks|, |g.blocks|);
        k := k + k2;
      }
    }
  }

  // ----- if -----

  /** An arm that ends normally goes on at the exit block. */
  lemma {:induction false} SimArm(G: Graph, ss: seq<Stmt>, g: Gen, l: Label, exit: Label, fs: seq<LoopFrame>,
                                  c: Config, fuel: nat)
      returns (k: nat)
    requires ArmReady(G, ss, g, l, exit, fs) && c.At? && c.Valid() && c.block == l && c.pc == 0
    ensures var r := ExecSeq(ss, c.st, |fs|, fuel);
            && Lands(Steps(G, c, k), r, exit, 0, fs, c.temps, |g.blocks|)
            && k >= Cost(r, fuel)
    decreases fuel, ss, 1
  {
    var g0 := MoveTo(g, l);
    var g1 := CompileSeq(ss, g0, fs);
    SeqGrows(ss, g0, fs);
    BranchIfOpenGrows(g1, exit);
    GrownExtends(g1, BranchIfOpen(g1, exit));
    ExtendsTrans(g1.blocks, BranchIfOpen(g1, exit).blocks, G);
    k := SimSeq(G, ss, g0, fs, c, fuel);
    var r, c1 := ExecSeq(ss, c.st, |fs|, fuel), Steps(G, c, k);
    if r.sig == Normal {
      SimPlain(G, g1, Br(exit), c1);
      Chain(G, c, k, c1, 1);
      k := k + 1;
    }
  }

  /** An arm whose code is in the final graph. */
  ghost predicate ArmReady(G: Graph, ss: seq<Stmt>, g: Gen, l: Label, exit: Label, fs: seq<LoopFrame>) {
    && l < |g.blocks| && exit < |g.blocks| && Ready(MoveTo(g, l), fs) && g.blocks[l] == []
    && Extends(Arm(ss, g, l, exit, fs).blocks, G)
  }

  lemma {:induction false} SimIf(G: Graph, s: Stmt, g: Gen, fs: seq<LoopFrame>, c: Config, fuel: nat) returns (k: nat)
    requires s.If? && Ready(g, fs) && Starts(c, g) && Extends(IfDone(s, g, fs).blocks, G)
    ensures var r := Exec(s, c.st, |fs|, fuel);
            && Lands(Steps(G, c, k), r, IfExit(s, g), 0, fs, c.temps, |g.blocks|)
            && k >= Cost(r, fuel)
    decreases fuel, s, 2
  {
    var n, exit := |g.blocks|, IfExit(s, g);
    var br := CondBr(s.cond, n, n + 1);
    IfStages(G, s, g, fs);
    RunCode(G, g.Code() + [br], c);
    var c1 := StepInstr(br, c);
    k := 1;
    var cond := EvalCond(s.cond, c.st);
    if cond.Some? && (cond.value || s.hasElse) {
      var k1 := SimChosenArm(G, s, g, fs, cond.value, c1, fuel);
      Chain(G, c, 1, c1, k1);
      k := 1 + k1;
    }
  }

  lemma {:induction false} SimChosenArm(G: Graph, s: Stmt, g: Gen, fs: seq<LoopFrame>, goes: bool, c: Config, fuel: nat)
      returns (k: nat)
    requires s.If? && Ready(g, fs) && Extends(IfDone(s, g, fs).blocks, G) && (goes || s.hasElse)
    requires c.At? && c.Valid() && c.block == (if goes then |g.blocks| else |g.blocks| + 1) && c.pc == 0
    ensures var r := ExecSeq(if goes then s.thn else s.els, c.st, |fs|, fuel);
            && Lands(Steps(G, c, k), r, IfExit(s, g), 0, fs, c.temps, |g.blocks|)
            && k >= Cost(r, fuel)
    decreases fuel, s, 1
  {
    var n, exit, head := |g.blocks|, IfExit(s, g), IfHead(s, g);
    IfStages(G, s, g, fs);
    if goes {
      k := SimArm(G, s.thn, head, n, exit, fs, c, fuel);
    } else {
      k := SimArm(G, s.els, Arm(s.thn, head, n, exit, fs), n + 1, exit, fs, c, fuel);
    }
  }

  lemma IfLeaves(s: Stmt, g: Gen, fs: seq<LoopFrame>)
    requires s.If? && Ready(g, fs)
    ensures CompileStmt(s, g, fs) == MoveTo(IfDone(s, g, fs), IfExit(s, g))
    ensures CompileStmt(s, g, fs).Code() == []
  {
    IfCode(s, g, fs);
    IfShape(s, g, fs);
  }

  /** The stages of an if are all in the final graph. */
  lemma IfStages(G: Graph, s: Stmt, g: Gen, fs: seq<LoopFrame>)
    requires s.If? && Ready(g, fs) && Extends(IfDone(s, g, fs).blocks, G)
    ensures var n, exit, head := |g.blocks|, IfExit(s, g), IfHead(s, g);
            && CodeAt(G, g.cur, g.Code() + [CondBr(s.cond, n, n + 1)])
            && ArmReady(G, s.thn, head, n, exit, fs)
            && (s.hasElse ==> ArmReady(G, s.els, Arm(s.thn, head, n, exit, fs), n + 1, exit, fs))
  {
    var n, exit, head := |g.blocks|, IfExit(s, g), IfHead(s, g);
    var then' := Arm(s.thn, head, n, exit, fs);
    IfHeadShape(s, g, fs);
    ThenShape(s, g, fs);
    FramesGrow(fs, n, |head.blocks|);
    StartBlock(g, head, {n} + IfTodo(s, g), n, fs);
    ArmGrows(s.thn, head, n, exit, fs);
    GrownExtends(MoveTo(head, n), then');
    if s.hasElse {
      FramesGrow(fs, n, |then'.blocks|);
      StartBlock(g, then', IfTodo(s, g), n + 1, fs);
      ArmGrows(s.els, then', n + 1, exit, fs);
      GrownExtends(MoveTo(then', n + 1), Arm(s.els, then', n + 1, exit, fs));
      ExtendsTrans(then'.blocks, IfDone(s, g, fs).blocks, G);
    }
    ExtendsTrans(head.blocks, then'.blocks, G);
    CodeIn(head.blocks, G, g.cur);
  }

  // ----- loop bodies -----

  /** A loop body whose code is in the final graph. */
  ghost predicate BodyReady(G: Graph, ss: seq<Stmt>, g: Gen, fs: seq<LoopFrame>, f: LoopFrame) {
    && Ready(g, fs + [f]) && f.continueTo < |g.blocks|
    && Extends(CloseBody(CompileSeq(ss, g, fs + [f]), f.continueTo).blocks, G)
  }

  /** One round of a loop body: it either goes back to the block that `continue` goes to, or
      leaves the loop as the signal says. */
  lemma {:induction false} SimBody(G: Graph, ss: seq<Stmt>, g: Gen, fs: seq<LoopFrame>, f: LoopFrame, c: Config,
                                   fuel: nat)
      returns (k: nat)
    requires BodyReady(G, ss, g, fs, f) && Starts(c, g)
    ensures var r := ExecSeq(ss, c.st, |fs| + 1, fuel);
            match AfterBody(r)
            case Again(st') =>
              AtPlace(Steps(G, c, k), f.continueTo, 0, st', c.temps, |g.blocks|) && k >= fuel - r.fuel + 1
            case Leave(sig) =>
              Lands(Steps(G, c, k), Run(sig, r.st, r.fuel), f.breakTo, 0, fs, c.temps, |g.blocks|)
              && k >= fuel - r.fuel + 1
    decreases fuel, ss, 1
  {
    var fs' := fs + [f];
    var g1 := CompileSeq(ss, g, fs');
    SeqGrows(ss, g, fs');
    CloseBodyGrows(g1, f.continueTo);
    GrownExtends(g1, CloseBody(g1, f.continueTo));
    ExtendsTrans(g1.blocks, CloseBody(g1, f.continueTo).blocks, G);
    k := SimSeq(G, ss, g, fs', c, fuel);
    var r, c1 := ExecSeq(ss, c.st, |fs'|, fuel), Steps(G, c, k);
    if r.sig == Normal {
      var g2 := Emit(g1, IFlush);
      EmitExtends(g2, Br(f.continueTo));
      ExtendsTrans(g2.blocks, CloseBody(g1, f.continueTo).blocks, G);
      var c2 := StepInstr(IFlush, c1);
      SimPlain(G, g1, IFlush, c1);
      SimPlain(G, g2, Br(f.continueTo), c2);
      Chain(G, c1, 1, c2, 1);
      Chain(G, c, k, c1, 2);
      k := k + 2;
    } else if r.sig.Continuing? && r.sig.depth > 1 {
      assert fs'[|fs'| - r.sig.depth] == fs[|fs| - (r.sig.depth - 1)];
    }
  }

  /** A body that fills an empty block of a half-emitted statement. */
  lemma BodyStage(G: Graph, ss: seq<Stmt>, g: Gen, g1: Gen, todo: set<Label>, l: Label, fs: seq<LoopFrame>,
                  f: LoopFrame)
    requires Partly(g, g1, todo) && l in todo && FramesExist(fs + [f], |g1.blocks|)
    requires Extends(CloseBody(CompileSeq(ss, MoveTo(g1, l), fs + [f]), f.continueTo).blocks, G)
    ensures BodyReady(G, ss, MoveTo(g1, l), fs, f) && MoveTo(g1, l).Code() == [] && Extends(g1.blocks, G)
  {
    var body := CloseBody(CompileSeq(ss, MoveTo(g1, l), fs + [f]), f.continueTo);
    StartBlock(g, g1, todo, l, fs + [f]);
    assert (fs + [f])[|fs|] == f;
    BodyGrows(ss, MoveTo(g1, l), fs + [f], f.continueTo);
    GrownExtends(MoveTo(g1, l), body);
    ExtendsTrans(g1.blocks, body.blocks, G);
  }

  // ----- infinite loops -----

  lemma InfiniteExit(s: Stmt, g: Gen, fs: seq<LoopFrame>)
    requires s.Infinite? && Ready(g, fs)
    ensures CompileStmt(s, g, fs) == MoveTo(InfiniteBody(s, g, fs), |g.blocks|)
    ensures CompileStmt(s, g, fs).Code() == []
  {
    InfiniteShape(s, g, fs);
  }

  lemma InfiniteStages(G: Graph, s: Stmt, g: Gen, fs: seq<LoopFrame>)
    requires s.Infinite? && Ready(g, fs) && Extends(InfiniteBody(s, g, fs).blocks, G)
    ensures var n, start := |g.blocks|, MoveTo(InfiniteHead(s, g), |g.blocks| + 1);
            && CodeAt(G, g.cur, g.Code() + [Br(n + 1)])
            && BodyReady(G, s.body, start, fs, LoopFrame(n, n + 1)) && start.Code() == []
  {
    var n, head := |g.blocks|, InfiniteHead(s, g);
    InfiniteHeadShape(s, g, fs);
    FramesGrow(fs, n, n + 2);
    BodyStage(G, s.body, g, head, {n, n + 1}, n + 1, fs, LoopFrame(n, n + 1));
    CodeIn(head.blocks, G, g.cur);
  }

  lemma {:induction false} SimInfiniteEntry(G: Graph, s: Stmt, g: Gen, fs: seq<LoopFrame>, c: Config, fuel: nat)
    returns (k: nat)
    requires s.Infinite? && Ready(g, fs) && Starts(c, g) && Extends(InfiniteBody(s, g, fs).blocks, G)
    ensures var r := Exec(s, c.st, |fs|, fuel);
            && Lands(Steps(G, c, k), r, |g.blocks|, 0, fs, c.temps, |g.blocks|)
            && k >= Cost(r, fuel)
    decreases fuel, s, 2
  {
    var n := |g.blocks|;
    InfiniteStages(G, s, g, fs);
    RunCode(G, g.Code() + [Br(n + 1)], c);
    var c1 := StepInstr(Br(n + 1), c);
    var start := MoveTo(InfiniteHead(s, g), n + 1);
    var k1 := SimInfinite(G, s, start, fs, LoopFrame(n, n + 1), c1, fuel);
    LandsAfter(G, c, 1, c1, k1, Exec(s, c1.st, |fs|, fuel), n, 0, fs, |start.blocks|, n);
    k := 1 + k1;
  }

  /** The rounds after one that ended where the body begins again. */
  lemma {:induction false} SimInfiniteRest(G: Graph, s: Stmt, g: Gen, fs: seq<LoopFrame>, f: LoopFrame, c: Config,
                                           k: nat, st': Store, fuel: nat)
      returns (k2: nat)
    requires s.Infinite? && BodyReady(G, s.body, g, fs, f) && g.Code() == [] && f.continueTo == g.cur
    requires c.At? && c.Valid() && AtPlace(Steps(G, c, k), g.cur, 0, st', c.temps, |g.blocks|)
    ensures var r := ExecInfinite(s.body, st', |fs|, fuel);
            Lands(Steps(G, c, k + k2), r, f.breakTo, 0, fs, c.temps, |g.blocks|) && k2 >= fuel - r.fuel
    decreases fuel, s, 2
  {
    var c1 := Steps(G, c, k);
    k2 := SimInfinite(G, s, g, fs, f, c1, fuel);
    LandsAfter(G, c, k, c1, k2, ExecInfinite(s.body, st', |fs|, fuel), f.breakTo, 0, fs, |g.blocks|, |g.blocks|);
  }

  lemma {:induction false} SimInfinite(G: Graph, s: Stmt, g: Gen, fs: seq<LoopFrame>, f: LoopFrame, c: Config,
                                       fuel: nat)
      returns (k: nat)
    requires s.Infinite? && BodyReady(G, s.body, g, fs, f) && g.Code() == [] && f.continueTo == g.cur
    requires Starts(c, g)
    ensures var r := ExecInfinite(s.body, c.st, |fs|, fuel);
            && Lands(Steps(G, c, k), r, f.breakTo, 0, fs, c.temps, |g.blocks|)
            && k >= fuel - r.fuel
    decreases fuel, s, 1
  {
    k := 0;
    if fuel > 0 {
      k := SimBody(G, s.body, g, fs, f, c, fuel - 1);
      var r := ExecSeq(s.body, c.st, |fs| + 1, fuel - 1);
      match AfterBody(r)
      case Leave(sig) =>
        assert ExecInfinite(s.body, c.st, |fs|, fuel) == Run(sig, r.st, r.fuel);
      case Again(st') =>
        var k2 := SimInfiniteRest(G, s, g, fs, f, c, k, st', r.fuel);
        k := k + k2;
        assert ExecInfinite(s.body, c.st, |fs|, fuel) == ExecInfinite(s.body, st', |fs|, r.fuel);
    }
  }

  // ----- while loops -----

  lemma WhileExit(s: Stmt, g: Gen, fs: seq<LoopFrame>)
    requires s.While? && Ready(g, fs)
    ensures CompileStmt(s, g, fs) == MoveTo(WhileBody(s, g, fs), |g.blocks|)
    ensures CompileStmt(s, g, fs).Code() == []
  {
    WhileCode(s, g, fs);
    WhileShape(s, g, fs);
  }

  lemma WhileHeadCode(s: Stmt, g: Gen)
    requires s.While? && g.Valid()
    ensures var n, head := |g.blocks|, WhileHead(s, g);
            && head.blocks[g.cur] == g.Code() + [Br(n + 2)]
            && head.blocks[n + 2] == [CondBr(s.cond, n + 1, n)]
  {
  }

  lemma WhileBodyStage(G: Graph, s: Stmt, g: Gen, fs: seq<LoopFrame>)
    requires s.While? && Ready(g, fs) && Extends(WhileBody(s, g, fs).blocks, G)
    ensures var n, start := |g.blocks|, MoveTo(WhileHead(s, g), |g.blocks| + 1);
            && BodyReady(G, s.body, start, fs, LoopFrame(n, n + 2)) && start.Code() == []
            && Extends(WhileHead(s, g).blocks, G)
  {
    var n := |g.blocks|;
    WhileHeadShape(s, g, fs);
    FramesGrow(fs, n, n + 3);
    BodyStage(G, s.body, g, WhileHead(s, g), {n, n + 1}, n + 1, fs, LoopFrame(n, n + 2));
  }

  lemma WhileCodeAt(G: Graph, s: Stmt, g: Gen)
    requires s.While? && g.Valid() && Extends(WhileHead(s, g).blocks, G)
    ensures var n := |g.blocks|;
            && CodeAt(G, g.cur, g.Code() + [Br(n + 2)])
            && CodeAt(G, n + 2, [CondBr(s.cond, n + 1, n)])
  {
    WhileHeadCode(s, g);
    CodeIn(WhileHead(s, g).blocks, G, g.cur);
    CodeIn(WhileHead(s, g).blocks, G, |g.blocks| + 2);
  }

  lemma {:induction false} SimWhileEntry(G: Graph, s: Stmt, g: Gen, fs: seq<LoopFrame>, c: Config, fuel: nat)
    returns (k: nat)
    requires s.While? && Ready(g, fs) && Starts(c, g) && Extends(WhileBody(s, g, fs).blocks, G)
    ensures var r := Exec(s, c.st, |fs|, fuel);
            && Lands(Steps(G, c, k), r, |g.blocks|, 0, fs, c.temps, |g.blocks|)
            && k >= Cost(r, fuel)
    decreases fuel, s, 2
  {
    var n := |g.blocks|;
    WhileBodyStage(G, s, g, fs);
    WhileCodeAt(G, s, g);
    RunCode(G, g.Code() + [Br(n + 2)], c);
    var c1 := StepInstr(Br(n + 2), c);
    var start := MoveTo(WhileHead(s, g), n + 1);
    var k1 := SimWhile(G, s, start, fs, LoopFrame(n, n + 2), c1, fuel);
    LandsAfter(G, c, 1, c1, k1, Exec(s, c1.st, |fs|, fuel), n, 0, fs, |start.blocks|, n);
    k := 1 + k1;
  }

  lemma {:induction false} SimWhileRound(G: Graph, s: Stmt, g: Gen, fs: seq<LoopFrame>, f: LoopFrame, c: Config,
                                         fuel: nat)
      returns (k: nat)
    requires s.While? && BodyReady(G, s.body, g, fs, f) && g.Code() == []
    requires CodeAt(G, f.continueTo, [CondBr(s.cond, g.cur, f.breakTo)])
    requires c.At? && c.Valid() && c.block == f.continueTo && c.pc == 0 && EvalCond(s.cond, c.st) == Some(true)
    ensures var r, c' := ExecSeq(s.body, c.st, |fs| + 1, fuel), Steps(G, c, k);
            match AfterBody(r)
            case Again(st') => AtPlace(c', f.continueTo, 0, st', c.temps, |g.blocks|) && k >= fuel - r.fuel + 1
            case Leave(sig) =>
              Lands(c', Run(sig, r.st, r.fuel), f.breakTo, 0, fs, c.temps, |g.blocks|) && k >= fuel - r.fuel + 1
    decreases fuel, s.body, 2
  {
    RunCode(G, [CondBr(s.cond, g.cur, f.breakTo)], c);
    var c1 := StepInstr(CondBr(s.cond, g.cur, f.breakTo), c);
    var k1 := SimBody(G, s.body, g, fs, f, c1, fuel);
    Chain(G, c, 1, c1, k1);
    k := 1 + k1;
  }

  lemma WhileEnds(G: Graph, s: Stmt, g: Gen, f: LoopFrame, c: Config)
    requires s.While? && CodeAt(G, f.continueTo, [CondBr(s.cond, g.cur, f.breakTo)])
    requires c.At? && c.Valid() && c.block == f.continueTo && c.pc == 0 && EvalCond(s.cond, c.st) != Some(true)
    ensures Steps(G, c, 1)
            == if EvalCond(s.cond, c.st).None? then Done(Faulted(c.st)) else At(f.breakTo, 0, c.st, c.temps)
  {
    RunCode(G, [CondBr(s.cond, g.cur, f.breakTo)], c);
  }

  /** The rounds after one that ended at the loop header again. */
  lemma {:induction false} SimWhileRest(G: Graph, s: Stmt, g: Gen, fs: seq<LoopFrame>, f: LoopFrame, c: Config,
                                        k: nat, st': Store, fuel: nat)
      returns (k2: nat)
    requires s.While? && BodyReady(G, s.body, g, fs, f) && g.Code() == []
    requires CodeAt(G, f.continueTo, [CondBr(s.cond, g.cur, f.breakTo)])
    requires c.At? && c.Valid() && AtPlace(Steps(G, c, k), f.continueTo, 0, st', c.temps, |g.blocks|)
    ensures var r := ExecWhile(s.cond, s.body, st', |fs|, fuel);
            Lands(Steps(G, c, k + k2), r, f.breakTo, 0, fs, c.temps, |g.blocks|) && k2 >= fuel - r.fuel
    decreases fuel, s, 2
  {
    var c1 := Steps(G, c, k);
    k2 := SimWhile(G, s, g, fs, f, c1, fuel);
    LandsAfter(G, c, k, c1, k2, ExecWhile(s.cond, s.body, st', |fs|, fuel), f.breakTo, 0, fs, |g.blocks|, |g.blocks|);
  }

  lemma {:induction false} SimWhile(G: Graph, s: Stmt, g: Gen, fs: seq<LoopFrame>, f: LoopFrame, c: Config, fuel: nat)
      returns (k: nat)
    requires s.While? && BodyReady(G, s.body, g, fs, f) && g.Code() == []
    requires CodeAt(G, f.continueTo, [CondBr(s.cond, g.cur, f.breakTo)])
    requires c.At? && c.Valid() && c.block == f.continueTo && c.pc == 0
    ensures var r := ExecWhile(s.cond, s.body, c.st, |fs|, fuel);
            && Lands(Steps(G, c, k), r, f.breakTo, 0, fs, c.temps, |g.blocks|)
            && k >= fuel - r.fuel
    decreases fuel, s, 1
  {
    if fuel == 0 {
      k := 0;
    } else if EvalCond(s.cond, c.st) == Some(true) {
      k := SimWhileRound(G, s, g, fs, f, c, fuel - 1);
      var r := ExecSeq(s.body, c.st, |fs| + 1, fuel - 1);
      match AfterBody(r)
      case Leave(sig) =>
        assert ExecWhile(s.cond, s.body, c.st, |fs|, fuel) == Run(sig, r.st, r.fuel);
      case Again(st') =>
        var k2 := SimWhileRest(G, s, g, fs, f, c, k, st', r.fuel);
        k := k + k2;
        assert ExecWhile(s.cond, s.body, c.st, |fs|, fuel) == ExecWhile(s.cond, s.body, st', |fs|, r.fuel);
    } else {
      WhileEnds(G, s, g, f, c);
      k := 1;
    }
  }

  // ----- range loops -----

  /** The builder when the statements of a range loop's body begin. */
  ghost function RangeEntry(s: Stmt, g: Gen): (g': Gen)
    requires g.Valid() && s.RangeFor?
    ensures g'.Valid() && |g'.blocks| == |g.blocks| + 4
  {
    Emit(MoveTo(RangeHead(s, g), |g.blocks| + 1), ILoopVar(s.name, |g.blocks|))
  }

  ghost function RangeFrame(g: Gen): LoopFrame {
    LoopFrame(|g.blocks| + 3, |g.blocks| + 2)
  }

  /** The code of a range loop, header h, in the final graph. */
  ghost predicate RangeReady(G: Graph, s: Stmt, g: Gen, fs: seq<LoopFrame>, f: LoopFrame, h: Label)
    requires s.RangeFor?
  {
    && BodyReady(G, s.body, g, fs, f) && g.Code() == [ILoopVar(s.name, h)] && h < |g.blocks|
    && CodeAt(G, h, [RangeBr(h, g.cur, f.breakTo)])
    && CodeAt(G, g.cur, [ILoopVar(s.name, h)])
    && CodeAt(G, f.continueTo, [IAdvance(h), Br(h)])
  }

  lemma RangeEntryReady(s: Stmt, g: Gen, fs: seq<LoopFrame>)
    requires s.RangeFor? && Ready(g, fs)
    ensures var n, entry := |g.blocks|, RangeEntry(s, g);
            && Ready(entry, fs + [RangeFrame(g)]) && entry.cur == n + 1 && entry.Code() == [ILoopVar(s.name, n)]
            && Extends(RangeHead(s, g).blocks, entry.blocks)
  {
    var n, head, fs' := |g.blocks|, RangeHead(s, g), fs + [RangeFrame(g)];
    RangeHeadShape(s, g, fs);
    FramesGrow(fs, n, n + 4);
    StartBlock(g, head, {n + 1, n + 2, n + 3}, n + 1, fs');
    EmitGrows(MoveTo(head, n + 1), ILoopVar(s.name, n), fs');
    EmitExtends(MoveTo(head, n + 1), ILoopVar(s.name, n));
  }

  lemma RangeBodyStage(s: Stmt, g: Gen, fs: seq<LoopFrame>)
    requires s.RangeFor? && Ready(g, fs)
    ensures Extends(RangeEntry(s, g).blocks,
                    RangeBody(s.body, RangeHead(s, g), s.name, |g.blocks|, fs + [RangeFrame(g)]).blocks)
  {
    RangeEntryReady(s, g, fs);
    BodyGrows(s.body, RangeEntry(s, g), fs + [RangeFrame(g)], |g.blocks| + 2);
    GrownExtends(RangeEntry(s, g), RangeBody(s.body, RangeHead(s, g), s.name, |g.blocks|, fs + [RangeFrame(g)]));
  }

  lemma RangeStepStage(g: Gen, n: Label)
    requires n + 3 < |g.blocks| && g.blocks[n + 2] == []
    ensures Extends(g.blocks, RangeStep(g, n).blocks)
    ensures RangeStep(g, n).blocks[n + 2] == [IAdvance(n), Br(n)]
  {
    var g1 := Emit(MoveTo(g, n + 2), IAdvance(n));
    EmitExtends(MoveTo(g, n + 2), IAdvance(n));
    EmitExtends(g1, Br(n));
    ExtendsTrans(g.blocks, g1.blocks, RangeStep(g, n).blocks);
  }

  lemma RangeHeadCode(s: Stmt, g: Gen)
    requires s.RangeFor? && g.Valid()
    ensures var n, head := |g.blocks|, RangeHead(s, g);
            && head.blocks[g.cur] == g.Code() + [IRange(n, s.start, s.end, s.step), Br(n)]
            && head.blocks[n] == [RangeBr(n, n + 1, n + 3)]
  {
    var n, init := |g.blocks|, IRange(|g.blocks|, s.start, s.end, s.step);
    assert g.Code() + [init] + [Br(n)] == g.Code() + [init, Br(n)];
  }

  lemma RangeExit(s: Stmt, g: Gen, fs: seq<LoopFrame>)
    requires s.RangeFor? && Ready(g, fs)
    ensures CompileStmt(s, g, fs) == MoveTo(RangeDone(s, g, fs), |g.blocks| + 3)
    ensures CompileStmt(s, g, fs).Code() == []
  {
    RangeCode(s, g, fs);
    RangeShape(s, g, fs);
  }

  lemma RangeCodeAt(G: Graph, s: Stmt, g: Gen)
    requires s.RangeFor? && g.Valid() && Extends(RangeHead(s, g).blocks, G)
    ensures var n := |g.blocks|;
            && CodeAt(G, g.cur, g.Code() + [IRange(n, s.start, s.end, s.step), Br(n)])
            && CodeAt(G, n, [RangeBr(n, n + 1, n + 3)])
  {
    RangeHeadCode(s, g);
    CodeIn(RangeHead(s, g).blocks, G, g.cur);
    CodeIn(RangeHead(s, g).blocks, G, |g.blocks|);
  }

  /** The step block of a range loop, and what comes before it, in the final graph. */
  lemma RangeStepAt(G: Graph, s: Stmt, g: Gen, fs: seq<LoopFrame>)
    requires s.RangeFor? && Ready(g, fs) && Extends(RangeDone(s, g, fs).blocks, G)
    ensures var n, fs' := |g.blocks|, fs + [RangeFrame(g)];
            && CodeAt(G, n + 2, [IAdvance(n), Br(n)])
            && Extends(RangeBody(s.body, RangeHead(s, g), s.name, n, fs').blocks, G)
  {
    var n, head, fs' := |g.blocks|, RangeHead(s, g), fs + [RangeFrame(g)];
    var body := RangeBody(s.body, head, s.name, n, fs');
    RangeHeadShape(s, g, fs);
    FramesGrow(fs, n, n + 4);
    FillRangeBody(s.body, g, head, s.name, n, fs');
    RangeStepStage(body, n);
    ExtendsTrans(body.blocks, RangeStep(body, n).blocks, G);
    CodeIn(RangeStep(body, n).blocks, G, n + 2);
  }

  lemma RangeBodyReady(G: Graph, s: Stmt, g: Gen, fs: seq<LoopFrame>)
    requires s.RangeFor? && Ready(g, fs) && Extends(RangeDone(s, g, fs).blocks, G)
    ensures BodyReady(G, s.body, RangeEntry(s, g), fs, RangeFrame(g))
    ensures Extends(RangeEntry(s, g).blocks, G)
  {
    RangeStepAt(G, s, g, fs);
    RangeEntryReady(s, g, fs);
    RangeBodyStage(s, g, fs);
    ExtendsTrans(RangeEntry(s, g).blocks,
                 RangeBody(s.body, RangeHead(s, g), s.name, |g.blocks|, fs + [RangeFrame(g)]).blocks, G);
  }

  lemma RangeStages(G: Graph, s: Stmt, g: Gen, fs: seq<LoopFrame>)
    requires s.RangeFor? && Ready(g, fs) && Extends(RangeDone(s, g, fs).blocks, G)
    ensures var n := |g.blocks|;
            && CodeAt(G, g.cur, g.Code() + [IRange(n, s.start, s.end, s.step), Br(n)])
            && RangeReady(G, s, RangeEntry(s, g), fs, RangeFrame(g), n)
  {
    RangeBodyReady(G, s, g, fs);
    RangeEntryReady(s, g, fs);
    ExtendsTrans(RangeHead(s, g).blocks, RangeEntry(s, g).blocks, G);
    RangeCodeAt(G, s, g);
    RangeStepAt(G, s, g, fs);
    CodeIn(RangeEntry(s, g).blocks, G, |g.blocks| + 1);
  }

  lemma {:induction false} SimRangeEntry(G: Graph, s: Stmt, g: Gen, fs: seq<LoopFrame>, c: Config, fuel: nat)
    returns (k: nat)
    requires s.RangeFor? && Ready(g, fs) && Starts(c, g) && Extends(RangeDone(s, g, fs).blocks, G)
    ensures var r := Exec(s, c.st, |fs|, fuel);
            && Lands(Steps(G, c, k), r, |g.blocks| + 3, 0, fs, c.temps, |g.blocks|)
            && k >= Cost(r, fuel)
    decreases fuel, s, 3
  {
    var n := |g.blocks|;
    RangeStages(G, s, g, fs);
    RangeInit(G, s, g, c);
    k := 1;
    var v1, v2, v3 := Eval(s.start, c.st), Eval(s.end, c.st), Eval(s.step, c.st);
    if v1.Some? && v2.Some? && v3.Some? {
      k := SimRangeEntered(G, s, RangeEntry(s, g), fs, RangeFrame(g), n, c, Range(v1.value, v2.value, v3.value), fuel);
      assert Exec(s, c.st, |fs|, fuel) == ExecRange(s.name, v1.value, v2.value, v3.value, s.body, c.st, |fs|, fuel);
    }
  }

  /** The loop from its header on, two steps after the code before it. */
  lemma {:induction false} SimRangeEntered(G: Graph, s: Stmt, g: Gen, fs: seq<LoopFrame>, f: LoopFrame, h: Label,
                                           c: Config, t: Range, fuel: nat)
      returns (k: nat)
    requires s.RangeFor? && RangeReady(G, s, g, fs, f, h)
    requires c.At? && c.Valid() && Steps(G, c, 2) == At(h, 0, c.st, c.temps[h := t])
    ensures var r := ExecRange(s.name, t.i, t.end, t.step, s.body, c.st, |fs|, fuel);
            Lands(Steps(G, c, k), r, f.breakTo, 0, fs, c.temps, h) && k >= fuel - r.fuel + 2
    decreases fuel, s, 2
  {
    var c2 := Steps(G, c, 2);
    var k2 := SimRange(G, s, g, fs, f, h, t, c2, fuel);
    LandsAfter(G, c, 2, c2, k2, ExecRange(s.name, t.i, t.end, t.step, s.body, c.st, |fs|, fuel),
               f.breakTo, 0, fs, h, h);
    k := 2 + k2;
  }

  /** The code before a range loop evaluates the three operands, or faults, and enters the
      header. */
  lemma RangeInit(G: Graph, s: Stmt, g: Gen, c: Config)
    requires s.RangeFor? && Starts(c, g)
    requires CodeAt(G, g.cur, g.Code() + [IRange(|g.blocks|, s.start, s.end, s.step), Br(|g.blocks|)])
    ensures var n, v1, v2, v3 := |g.blocks|, Eval(s.start, c.st), Eval(s.end, c.st), Eval(s.step, c.st);
            if v1.None? || v2.None? || v3.None? then Steps(G, c, 1) == Done(Faulted(c.st))
            else
              && Steps(G, c, 1).At?
              && Steps(G, c, 2) == At(n, 0, c.st, c.temps[n := Range(v1.value, v2.value, v3.value)])
  {
    var n := |g.blocks|;
    var init := IRange(n, s.start, s.end, s.step);
    var code := g.Code() + [init, Br(n)];
    RunCode(G, code, c);
    var c1 := StepInstr(init, c);
    if c1.At? {
      RunCode(G, code, c1);
      Chain(G, c, 1, c1, 1);
    }
  }

  lemma {:induction false} SimRangeRound(G: Graph, s: Stmt, g: Gen, fs: seq<LoopFrame>, f: LoopFrame, h: Label,
                                         c: Config, fuel: nat)
      returns (k: nat)
    requires s.RangeFor? && RangeReady(G, s, g, fs, f, h)
    requires c.At? && c.Valid() && c.block == h && c.pc == 0 && h in c.temps
    requires RangeGoes(c.temps[h].i, c.temps[h].end, c.temps[h].step)
    ensures var t, c' := c.temps[h], Steps(G, c, k);
            var r := ExecSeq(s.body, SetVar(c.st, s.name, t.i), |fs| + 1, fuel);
            match AfterBody(r)
            case Again(st') =>
              && AtPlace(c', h, 0, st', c.temps, h)
              && h in c'.temps && c'.temps[h] == Range(Int64.Add(t.i, t.step), t.end, t.step)
              && k >= fuel - r.fuel + 1
            case Leave(sig) =>
              Lands(c', Run(sig, r.st, r.fuel), f.breakTo, 0, fs, c.temps, h) && k >= fuel - r.fuel + 1
    decreases fuel, s.body, 2
  {
    var c2 := EnterBody(G, s, g, fs, f, h, c);
    var k2 := SimBody(G, s.body, g, fs, f, c2, fuel);
    Chain(G, c, 2, c2, k2);
    k := 2 + k2;
    var r, c3 := ExecSeq(s.body, c2.st, |fs| + 1, fuel), Steps(G, c, k);
    match AfterBody(r)
    case Again(st') =>
      var c4 := AdvanceRange(G, s, g, fs, f, h, c3);
      Chain(G, c, k, c3, 2);
      k := k + 2;
    case Leave(sig) =>
      LandsWeaker(c3, Run(sig, r.st, r.fuel), f.breakTo, 0, fs, c2.temps, |g.blocks|, c.temps, h);
  }

  lemma RangeEnds(G: Graph, s: Stmt, g: Gen, fs: seq<LoopFrame>, f: LoopFrame, h: Label, c: Config)
    requires s.RangeFor? && RangeReady(G, s, g, fs, f, h)
    requires c.At? && c.Valid() && c.block == h && c.pc == 0 && h in c.temps
    requires !RangeGoes(c.temps[h].i, c.temps[h].end, c.temps[h].step)
    ensures Steps(G, c, 1) == At(f.breakTo, 0, c.st, c.temps)
  {
    RunCode(G, [RangeBr(h, g.cur, f.breakTo)], c);
  }

  /** The rounds after one that ended at the loop header again. */
  lemma {:induction false} SimRangeRest(G: Graph, s: Stmt, g: Gen, fs: seq<LoopFrame>, f: LoopFrame, h: Label,
                                        c: Config, k: nat, st': Store, fuel: nat)
      returns (k2: nat)
    requires s.RangeFor? && RangeReady(G, s, g, fs, f, h)
    requires c.At? && c.Valid() && h in c.temps && AtPlace(Steps(G, c, k), h, 0, st', c.temps, h)
    requires h in Steps(G, c, k).temps
    requires Steps(G, c, k).temps[h] == Range(Int64.Add(c.temps[h].i, c.temps[h].step), c.temps[h].end, c.temps[h].step)
    ensures var t := c.temps[h];
            var r := ExecRange(s.name, Int64.Add(t.i, t.step), t.end, t.step, s.body, st', |fs|, fuel);
            Lands(Steps(G, c, k + k2), r, f.breakTo, 0, fs, c.temps, h) && k2 >= fuel - r.fuel
    decreases fuel, s, 2
  {
    var t, c1 := c.temps[h], Steps(G, c, k);
    k2 := SimRange(G, s, g, fs, f, h, c1.temps[h], c1, fuel);
    LandsAfter(G, c, k, c1, k2, ExecRange(s.name, Int64.Add(t.i, t.step), t.end, t.step, s.body, st', |fs|, fuel),
               f.breakTo, 0, fs, h, h);
  }

  lemma {:induction false} SimRange(G: Graph, s: Stmt, g: Gen, fs: seq<LoopFrame>, f: LoopFrame, h: Label, t: Range,
                                    c: Config, fuel: nat)
      returns (k: nat)
    requires s.RangeFor? && RangeReady(G, s, g, fs, f, h)
    requires c.At? && c.Valid() && c.block == h && c.pc == 0 && h in c.temps && c.temps[h] == t
    ensures var r := ExecRange(s.name, t.i, t.end, t.step, s.body, c.st, |fs|, fuel);
            && Lands(Steps(G, c, k), r, f.breakTo, 0, fs, c.temps, h)
            && k >= fuel - r.fuel
    decreases fuel, s, 1
  {
    if fuel == 0 {
      k := 0;
    } else if RangeGoes(t.i, t.end, t.step) {
      k := SimRangeGoes(G, s, g, fs, f, h, c, fuel);
    } else {
      RangeEnds(G, s, g, fs, f, h, c);
      k := 1;
      assert ExecRange(s.name, t.i, t.end, t.step, s.body, c.st, |fs|, fuel) == Run(Normal, c.st, fuel - 1);
    }
  }

  lemma {:induction false} SimRangeGoes(G: Graph, s: Stmt, g: Gen, fs: seq<LoopFrame>, f: LoopFrame, h: Label,
                                        c: Config, fuel: nat)
      returns (k: nat)
    requires s.RangeFor? && RangeReady(G, s, g, fs, f, h) && fuel > 0
    requires c.At? && c.Valid() && c.block == h && c.pc == 0 && h in c.temps
    requires RangeGoes(c.temps[h].i, c.temps[h].end, c.temps[h].step)
    ensures var t := c.temps[h];
            var r := ExecRange(s.name, t.i, t.end, t.step, s.body, c.st, |fs|, fuel);
            Lands(Steps(G, c, k), r, f.breakTo, 0, fs, c.temps, h) && k >= fuel - r.fuel
    decreases fuel, s, 0
  {
    var t := c.temps[h];
    k := SimRangeRound(G, s, g, fs, f, h, c, fuel - 1);
    var r := ExecSeq(s.body, SetVar(c.st, s.name, t.i), |fs| + 1, fuel - 1);
    match AfterBody(r)
    case Leave(sig) =>
      assert ExecRange(s.name, t.i, t.end, t.step, s.body, c.st, |fs|, fuel) == Run(sig, r.st, r.fuel);
    case Again(st') =>
      var k2 := SimRangeRest(G, s, g, fs, f, h, c, k, st', r.fuel);
      k := k + k2;
      assert ExecRange(s.name, t.i, t.end, t.step, s.body, c.st, |fs|, fuel)
             == ExecRange(s.name, Int64.Add(t.i, t.step), t.end, t.step, s.body, st', |fs|, r.fuel);
  }

  /** The header lets the round begin; the loop variable gets a copy of the position. */
  lemma EnterBody(G: Graph, s: Stmt, g: Gen, fs: seq<LoopFrame>, f: LoopFrame, h: Label, c: Config) returns (c': Config)
    requires s.RangeFor? && RangeReady(G, s, g, fs, f, h)
    requires c.At? && c.Valid() && c.block == h && c.pc == 0 && h in c.temps
    requires RangeGoes(c.temps[h].i, c.temps[h].end, c.temps[h].step)
    ensures Steps(G, c, 2) == c' && c' == At(g.cur, 1, SetVar(c.st, s.name, c.temps[h].i), c.temps)
  {
    RunCode(G, [RangeBr(h, g.cur, f.breakTo)], c);
    var c1 := StepInstr(RangeBr(h, g.cur, f.breakTo), c);
    RunCode(G, [ILoopVar(s.name, h)], c1);
    c' := StepInstr(ILoopVar(s.name, h), c1);
    Chain(G, c, 1, c1, 1);
  }

  /** The step block advances the hidden position and returns to the header. */
  lemma AdvanceRange(G: Graph, s: Stmt, g: Gen, fs: seq<LoopFrame>, f: LoopFrame, h: Label, c: Config)
    returns (c': Config)
    requires s.RangeFor? && RangeReady(G, s, g, fs, f, h)
    requires c.At? && c.Valid() && c.block == f.continueTo && c.pc == 0 && h in c.temps
    ensures Steps(G, c, 2) == c'
    ensures var t := c.temps[h];
            c' == At(h, 0, c.st, c.temps[h := Range(Int64.Add(t.i, t.step), t.end, t.step)])
  {
    RunCode(G, [IAdvance(h), Br(h)], c);
    var c1 := StepInstr(IAdvance(h), c);
    RunCode(G, [IAdvance(h), Br(h)], c1);
    c' := StepInstr(Br(h), c1);
    Chain(G, c, 1, c1, 1);
  }

  // ----- whole programs -----

  /** A program run with a budget: None when the budget does not suffice. */
  function RunMain(ss: seq<Stmt>, st: Store, fuel: nat): Option<Final>
    requires st.Valid()
  {
    var r := ExecSeq(ss, st, 0, fuel);
    match r.sig
    case Returning(v) => Some(Returned(v, r.st))
    case Faulting => Some(Faulted(r.st))
    case OutOfFuel => None
    case _ => Some(Finished(Flush(r.st)))
  }

  function Entry(st: Store): Config {
    At(0, 0, st, map[])
  }

  lemma SimMain(ss: seq<Stmt>, st: Store, fuel: nat) returns (k: nat)
    requires st.Valid()
    ensures var c := Steps(CompileMain(ss), Entry(st), k);
            match RunMain(ss, st, fuel)
            case Some(f) => c == Done(f)
            case None => c.At? && k > fuel
  {
    var G, g := CompileMain(ss), CompileSeq(ss, START, []);
    SeqGrows(ss, START, []);
    OpenIsNotTerminated(g.Code());
    var g1 := if Terminated(g.Code()) then g else Emit(g, IFlush);
    if !Terminated(g.Code()) {
      EmitExtends(g, IFlush);
      EmitExtends(g1, RetMain);
      ExtendsTrans(g.blocks, g1.blocks, G);
    }
    k := SimSeq(G, ss, START, [], Entry(st), fuel);
    var r, c1 := ExecSeq(ss, st, 0, fuel), Steps(G, Entry(st), k);
    if r.sig == Normal {
      SimPlain(G, g, IFlush, c1);
      var c2 := StepInstr(IFlush, c1);
      SimPlain(G, g1, RetMain, c2);
      Chain(G, c1, 1, c2, 1);
      Chain(G, Entry(st), k, c1, 2);
      k := k + 2;
    }
  }

  /** For every program and store: the graph halts with a result exactly when the program run
      with some budget gives that result. In particular the graph runs for ever exactly when no
      budget suffices, and it is never stuck. */
  lemma CompiledProgramIsEquivalent(ss: seq<Stmt>, st: Store, f: Final)
    requires st.Valid()
    ensures (exists k: nat :: Steps(CompileMain(ss), Entry(st), k) == Done(f)) <==>
            (exists fuel: nat :: RunMain(ss, st, fuel) == Some(f))
  {
    var G := CompileMain(ss);
    if k: nat :| Steps(G, Entry(st), k) == Done(f) {
      var k1 := SimMain(ss, st, k);
      if k <= k1 {
        Chain(G, Entry(st), k, Done(f), k1 - k);
        DoneStays(G, Done(f), k1 - k);
      } else {
        Chain(G, Entry(st), k1, Steps(G, Entry(st), k1), k - k1);
        DoneStays(G, Steps(G, Entry(st), k1), k - k1);
      }
      assert RunMain(ss, st, k) == Some(f);
    }
    if fuel: nat :| RunMain(ss, st, fuel) == Some(f) {
      var k1 := SimMain(ss, st, fuel);
    }
  }
}
