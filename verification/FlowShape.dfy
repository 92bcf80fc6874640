/** The shape of the emitted graph: emission only ever appends, and every block it finishes has
    exactly one terminator, at its end, with branch targets that exist. */
module FlowShape {
  import opened Flow
  import opened FlowGraph
  import opened FlowCompile

  /** Every block of b1 is a prefix of the block of b2 with the same label. */
  ghost predicate Extends(b1: Graph, b2: Graph) {
    |b1| <= |b2| && forall l :: 0 <= l < |b1| ==> b1[l] <= b2[l]
  }

  ghost predicate CodeTargets(code: Code, n: nat) {
    forall k :: 0 <= k < |code| ==> TargetsBelow(code[k], n)
  }

  ghost predicate TargetsExist(blocks: Graph) {
    forall l :: 0 <= l < |blocks| ==> CodeTargets(blocks[l], |blocks|)
  }

  ghost predicate FramesExist(fs: seq<LoopFrame>, n: nat) {
    forall i :: 0 <= i < |fs| ==> fs[i].breakTo < n && fs[i].continueTo < n
  }

  /** The builder stands in a block without terminator. */
  ghost predicate Ready(g: Gen, fs: seq<LoopFrame>) {
    g.Valid() && Open(g.Code()) && TargetsExist(g.blocks) && FramesExist(fs, |g.blocks|)
  }

  ghost predicate OpenOrClosed(code: Code) {
    Open(code) || Closed(code)
  }

  /** What emitting statements does: other existing blocks stay as they are; the block left and
      all new blocks are closed, except the one the builder now stands in. */
  ghost predicate Grown(g: Gen, g': Gen) {
    && g.Valid() && g'.Valid() && |g.blocks| <= |g'.blocks|
    && (g'.cur == g.cur || g'.cur >= |g.blocks|)
    && (forall l :: 0 <= l < |g.blocks| && l != g.cur ==> g'.blocks[l] == g.blocks[l])
    && g.Code() <= g'.blocks[g.cur]
    && (forall l :: (l == g.cur || |g.blocks| <= l < |g'.blocks|) && l != g'.cur ==> Closed(g'.blocks[l]))
    && OpenOrClosed(g'.Code())
    && TargetsExist(g'.blocks)
  }

  lemma OpenIsNotTerminated(code: Code)
    requires OpenOrClosed(code)
    ensures Open(code) <==> !Terminated(code)
  {
  }

  lemma CloseIt(code: Code, i: Instr)
    requires Open(code)
    ensures IsTerminator(i) ==> Closed(code + [i])
    ensures !IsTerminator(i) ==> Open(code + [i])
  {
  }

  lemma EmitTargets(g: Gen, i: Instr)
    requires g.Valid() && TargetsExist(g.blocks) && TargetsBelow(i, |g.blocks|)
    ensures TargetsExist(Emit(g, i).blocks)
  {
    assert CodeTargets(g.Code() + [i], |g.blocks|);
  }

  lemma NewBlocksTargets(g: Gen, n: nat)
    requires g.Valid() && TargetsExist(g.blocks)
    ensures TargetsExist(NewBlocks(g, n).blocks)
  {
    var g' := NewBlocks(g, n);
    forall l | 0 <= l < |g.blocks| ensures CodeTargets(g.blocks[l], |g'.blocks|) {
      assert CodeTargets(g.blocks[l], |g.blocks|);
    }
  }

  lemma EmitGrows(g: Gen, i: Instr, fs: seq<LoopFrame>)
    requires Ready(g, fs) && TargetsBelow(i, |g.blocks|)
    ensures Grown(g, Emit(g, i))
    ensures Terminated(Emit(g, i).Code()) <==> IsTerminator(i)
    ensures !IsTerminator(i) ==> Ready(Emit(g, i), fs)
  {
    CloseIt(g.Code(), i);
    EmitTargets(g, i);
  }

  /** Half-way through emitting a statement: the blocks in `todo` are created and empty, every
      other new block and the block the statement began in are closed. */
  ghost predicate Partly(g: Gen, g': Gen, todo: set<Label>) {
    && g.Valid() && g'.Valid() && |g.blocks| <= |g'.blocks|
    && (forall l :: 0 <= l < |g.blocks| && l != g.cur ==> g'.blocks[l] == g.blocks[l])
    && g.Code() <= g'.blocks[g.cur]
    && (forall l :: (l == g.cur || |g.blocks| <= l < |g'.blocks|) && l !in todo ==> Closed(g'.blocks[l]))
    && (forall l :: l in todo ==> |g.blocks| <= l < |g'.blocks| && g'.blocks[l] == [])
    && TargetsExist(g'.blocks)
  }

  /** Creating k blocks and ending the current one. */
  lemma BranchAway(g: Gen, k: nat, i: Instr, fs: seq<LoopFrame>, todo: set<Label>)
    requires Ready(g, fs) && IsTerminator(i) && TargetsBelow(i, |g.blocks| + k)
    requires forall l: Label :: l in todo <==> |g.blocks| <= l < |g.blocks| + k
    ensures Partly(g, Emit(NewBlocks(g, k), i), todo)
  {
    NewBlocksTargets(g, k);
    EmitTargets(NewBlocks(g, k), i);
    CloseIt(g.Code(), i);
  }

  /** Filling one of the created blocks. */
  lemma FillBlock(g: Gen, g1: Gen, todo: set<Label>, l: Label, g2: Gen)
    requires Partly(g, g1, todo) && l in todo
    requires Grown(MoveTo(g1, l), g2) && Closed(g2.Code())
    ensures Partly(g, g2, todo - {l})
  {
  }

  lemma LastBlock(g: Gen, g': Gen, exit: Label)
    requires Partly(g, g', {exit})
    ensures Grown(g, MoveTo(g', exit))
  {
    assert Open([]);
  }

  lemma StartBlock(g: Gen, g': Gen, todo: set<Label>, l: Label, fs: seq<LoopFrame>)
    requires Partly(g, g', todo) && l in todo && FramesExist(fs, |g'.blocks|)
    ensures Ready(MoveTo(g', l), fs)
  {
  }

  lemma GrownTrans(g1: Gen, g2: Gen, g3: Gen)
    requires Grown(g1, g2) && Grown(g2, g3)
    ensures Grown(g1, g3)
  {
  }

  lemma FramesGrow(fs: seq<LoopFrame>, n: nat, m: nat)
    requires FramesExist(fs, n) && n <= m
    ensures FramesExist(fs, m)
  {
  }

  lemma BranchIfOpenGrows(g: Gen, l: Label)
    requires g.Valid() && OpenOrClosed(g.Code()) && TargetsExist(g.blocks) && l < |g.blocks|
    ensures Grown(g, BranchIfOpen(g, l)) && Closed(BranchIfOpen(g, l).Code())
    ensures BranchIfOpen(g, l).cur == g.cur
  {
    OpenIsNotTerminated(g.Code());
    if !Terminated(g.Code()) {
      EmitGrows(g, Br(l), []);
    }
  }

  lemma CloseBodyGrows(g: Gen, l: Label)
    requires g.Valid() && OpenOrClosed(g.Code()) && TargetsExist(g.blocks) && l < |g.blocks|
    ensures Grown(g, CloseBody(g, l)) && Closed(CloseBody(g, l).Code())
    ensures CloseBody(g, l).cur == g.cur
  {
    OpenIsNotTerminated(g.Code());
    if !Terminated(g.Code()) {
      EmitGrows(g, IFlush, []);
      EmitGrows(Emit(g, IFlush), Br(l), []);
    }
  }

  // ----- emission keeps the shape -----

  lemma {:induction false} StmtGrows(s: Stmt, g: Gen, fs: seq<LoopFrame>)
    requires Ready(g, fs)
    ensures Grown(g, CompileStmt(s, g, fs))
    decreases s, 2
  {
    match s
    case Bind(x, e, later) => EmitGrows(g, IBind(x, e, later), fs);
    case Block(b) => SeqGrows(b, g, fs);
    case If(_, _, _, _) =>
      IfShape(s, g, fs);
      IfCode(s, g, fs);
      LastBlock(g, IfDone(s, g, fs), IfExit(s, g));
    case Infinite(_) =>
      InfiniteShape(s, g, fs);
      LastBlock(g, InfiniteBody(s, g, fs), |g.blocks|);
    case While(_, _) =>
      WhileShape(s, g, fs);
      WhileCode(s, g, fs);
      LastBlock(g, WhileBody(s, g, fs), |g.blocks|);
    case RangeFor(_, _, _, _, _) =>
      RangeShape(s, g, fs);
      RangeCode(s, g, fs);
      LastBlock(g, RangeDone(s, g, fs), |g.blocks| + 3);
    case Break => if fs != [] { EmitGrows(g, Br(fs[|fs| - 1].breakTo), fs); }
    case Continue(d) =>
      if fs != [] && d != 0 && d <= |fs| { EmitGrows(g, Br(fs[|fs| - d].continueTo), fs); }
    case Return(e) => EmitGrows(g, Ret(e), fs);
  }

  lemma {:induction false} SeqGrows(ss: seq<Stmt>, g: Gen, fs: seq<LoopFrame>)
    requires Ready(g, fs)
    ensures Grown(g, CompileSeq(ss, g, fs))
    decreases ss, 0
  {
    if ss != [] {
      StmtGrows(ss[0], g, fs);
      var g1 := CompileStmt(ss[0], g, fs);
      OpenIsNotTerminated(g1.Code());
      if !Terminated(g1.Code()) {
        FramesGrow(fs, |g.blocks|, |g1.blocks|);
        SeqGrows(ss[1..], g1, fs);
        GrownTrans(g, g1, CompileSeq(ss[1..], g1, fs));
      }
    }
  }

  /** One arm: from an empty block at l, statements, then a branch. */
  lemma {:induction false} ArmGrows(ss: seq<Stmt>, g: Gen, l: Label, exit: Label, fs: seq<LoopFrame>)
    requires l < |g.blocks| && Ready(MoveTo(g, l), fs) && exit < |g.blocks|
    ensures var g' := BranchIfOpen(CompileSeq(ss, MoveTo(g, l), fs), exit);
            Grown(MoveTo(g, l), g') && Closed(g'.Code())
    decreases ss, 1
  {
    var g1 := MoveTo(g, l);
    SeqGrows(ss, g1, fs);
    BranchIfOpenGrows(CompileSeq(ss, g1, fs), exit);
    GrownTrans(g1, CompileSeq(ss, g1, fs), BranchIfOpen(CompileSeq(ss, g1, fs), exit));
  }

  // The builder at the stages of an if: after the branch, after each arm.

  ghost function IfExit(s: Stmt, g: Gen): Label
    requires s.If?
  {
    |g.blocks| + if s.hasElse then 2 else 1
  }

  ghost function IfHead(s: Stmt, g: Gen): (g': Gen)
    requires g.Valid() && s.If?
    ensures g'.Valid() && |g'.blocks| == IfExit(s, g) + 1
  {
    Emit(NewBlocks(g, if s.hasElse then 3 else 2), CondBr(s.cond, |g.blocks|, |g.blocks| + 1))
  }

  ghost function Arm(ss: seq<Stmt>, g: Gen, l: Label, exit: Label, fs: seq<LoopFrame>): (g': Gen)
    requires l < |g.blocks|
    ensures g'.Valid() && |g'.blocks| >= |g.blocks|
  {
    BranchIfOpen(CompileSeq(ss, MoveTo(g, l), fs), exit)
  }

  ghost function IfDone(s: Stmt, g: Gen, fs: seq<LoopFrame>): (g': Gen)
    requires g.Valid() && s.If?
    ensures g'.Valid() && |g'.blocks| > IfExit(s, g)
  {
    var n, exit := |g.blocks|, IfExit(s, g);
    var then' := Arm(s.thn, IfHead(s, g), n, exit, fs);
    if s.hasElse then Arm(s.els, then', n + 1, exit, fs) else then'
  }

  lemma IfCode(s: Stmt, g: Gen, fs: seq<LoopFrame>)
    requires g.Valid() && s.If?
    ensures CompileStmt(s, g, fs) == MoveTo(IfDone(s, g, fs), IfExit(s, g))
  {
  }

  ghost function IfTodo(s: Stmt, g: Gen): set<Label>
    requires s.If?
  {
    if s.hasElse then {|g.blocks| + 1, |g.blocks| + 2} else {|g.blocks| + 1}
  }

  lemma IfHeadShape(s: Stmt, g: Gen, fs: seq<LoopFrame>)
    requires Ready(g, fs) && s.If?
    ensures Partly(g, IfHead(s, g), {|g.blocks|} + IfTodo(s, g))
  {
    var n := |g.blocks|;
    BranchAway(g, if s.hasElse then 3 else 2, CondBr(s.cond, n, n + 1), fs, {n} + IfTodo(s, g));
  }

  lemma {:induction false} ThenShape(s: Stmt, g: Gen, fs: seq<LoopFrame>)
    requires Ready(g, fs) && s.If?
    ensures Partly(g, Arm(s.thn, IfHead(s, g), |g.blocks|, IfExit(s, g), fs), IfTodo(s, g))
    decreases s, 0
  {
    var n := |g.blocks|;
    IfHeadShape(s, g, fs);
    FillArm(s.thn, g, IfHead(s, g), {n} + IfTodo(s, g), n, IfExit(s, g), fs);
    assert {n} + IfTodo(s, g) - {n} == IfTodo(s, g);
  }

  lemma {:induction false} IfShape(s: Stmt, g: Gen, fs: seq<LoopFrame>)
    requires Ready(g, fs) && s.If?
    ensures Partly(g, IfDone(s, g, fs), {IfExit(s, g)})
    decreases s, 1
  {
    var n, exit := |g.blocks|, IfExit(s, g);
    ThenShape(s, g, fs);
    if s.hasElse {
      FillArm(s.els, g, Arm(s.thn, IfHead(s, g), n, exit, fs), IfTodo(s, g), n + 1, exit, fs);
      assert IfTodo(s, g) - {n + 1} == {exit};
    }
  }

  lemma {:induction false} FillArm(ss: seq<Stmt>, g: Gen, g1: Gen, todo: set<Label>, l: Label, exit: Label,
                                   fs: seq<LoopFrame>)
    requires Partly(g, g1, todo) && l in todo && exit in todo && FramesExist(fs, |g.blocks|)
    ensures Partly(g, Arm(ss, g1, l, exit, fs), todo - {l})
    decreases ss, 2
  {
    FramesGrow(fs, |g.blocks|, |g1.blocks|);
    StartBlock(g, g1, todo, l, fs);
    ArmGrows(ss, g1, l, exit, fs);
    FillBlock(g, g1, todo, l, BranchIfOpen(CompileSeq(ss, MoveTo(g1, l), fs), exit));
  }

  /** A loop body: from the current block, statements, then the closing branch. */
  lemma {:induction false} BodyGrows(ss: seq<Stmt>, g: Gen, fs: seq<LoopFrame>, back: Label)
    requires Ready(g, fs) && back < |g.blocks|
    ensures var g' := CloseBody(CompileSeq(ss, g, fs), back);
            Grown(g, g') && Closed(g'.Code())
    decreases ss, 1
  {
    SeqGrows(ss, g, fs);
    CloseBodyGrows(CompileSeq(ss, g, fs), back);
    GrownTrans(g, CompileSeq(ss, g, fs), CloseBody(CompileSeq(ss, g, fs), back));
  }

  /** Fills block l with an optional first instruction and a loop body. */
  lemma {:induction false} FillBody(ss: seq<Stmt>, g: Gen, g1: Gen, todo: set<Label>, l: Label, fs: seq<LoopFrame>,
                                    back: Label)
    requires Partly(g, g1, todo) && l in todo && FramesExist(fs, |g1.blocks|) && back < |g1.blocks|
    ensures Partly(g, CloseBody(CompileSeq(ss, MoveTo(g1, l), fs), back), todo - {l})
    decreases ss, 2
  {
    StartBlock(g, g1, todo, l, fs);
    BodyGrows(ss, MoveTo(g1, l), fs, back);
    FillBlock(g, g1, todo, l, CloseBody(CompileSeq(ss, MoveTo(g1, l), fs), back));
  }

  // The builder at the stages of a loop: after the head, after the body.

  ghost function InfiniteBody(s: Stmt, g: Gen, fs: seq<LoopFrame>): (g': Gen)
    requires g.Valid() && s.Infinite?
    ensures g'.Valid() && |g'.blocks| >= |g.blocks| + 2
  {
    var n := |g.blocks|;
    CloseBody(CompileSeq(s.body, MoveTo(InfiniteHead(s, g), n + 1), fs + [LoopFrame(n, n + 1)]), n + 1)
  }

  ghost function InfiniteHead(s: Stmt, g: Gen): (g': Gen)
    requires g.Valid() && s.Infinite?
    ensures g'.Valid() && |g'.blocks| == |g.blocks| + 2
  {
    Emit(NewBlocks(g, 2), Br(|g.blocks| + 1))
  }

  lemma InfiniteHeadShape(s: Stmt, g: Gen, fs: seq<LoopFrame>)
    requires Ready(g, fs) && s.Infinite?
    ensures Partly(g, InfiniteHead(s, g), {|g.blocks|, |g.blocks| + 1})
  {
    BranchAway(g, 2, Br(|g.blocks| + 1), fs, {|g.blocks|, |g.blocks| + 1});
  }

  lemma {:induction false} InfiniteShape(s: Stmt, g: Gen, fs: seq<LoopFrame>)
    requires Ready(g, fs) && s.Infinite?
    ensures Partly(g, InfiniteBody(s, g, fs), {|g.blocks|})
    decreases s, 0
  {
    var n := |g.blocks|;
    InfiniteHeadShape(s, g, fs);
    FramesGrow(fs, n, n + 2);
    var todo := {n, n + 1};
    FillBody(s.body, g, InfiniteHead(s, g), todo, n + 1, fs + [LoopFrame(n, n + 1)], n + 1);
    assert todo - {n + 1} == {n};
    assert Partly(g, InfiniteBody(s, g, fs), todo - {n + 1});
  }

  lemma {:induction false} WhileShape(s: Stmt, g: Gen, fs: seq<LoopFrame>)
    requires Ready(g, fs) && s.While?
    ensures Partly(g, WhileBody(s, g, fs), {|g.blocks|})
    decreases s, 0
  {
    var n := |g.blocks|;
    WhileHeadShape(s, g, fs);
    FramesGrow(fs, n, n + 3);
    FillBody(s.body, g, WhileHead(s, g), {n, n + 1}, n + 1, fs + [LoopFrame(n, n + 2)], n + 2);
    assert {n, n + 1} - {n + 1} == {n};
  }

  /** The builder when the condition block of a while loop is done. */
  ghost function WhileHead(s: Stmt, g: Gen): (g': Gen)
    requires g.Valid() && s.While?
    ensures g'.Valid() && |g'.blocks| == |g.blocks| + 3
  {
    var n := |g.blocks|;
    Emit(MoveTo(Emit(NewBlocks(g, 3), Br(n + 2)), n + 2), CondBr(s.cond, n + 1, n))
  }

  ghost function WhileBody(s: Stmt, g: Gen, fs: seq<LoopFrame>): (g': Gen)
    requires g.Valid() && s.While?
    ensures g'.Valid() && |g'.blocks| >= |g.blocks| + 3
  {
    var n := |g.blocks|;
    CloseBody(CompileSeq(s.body, MoveTo(WhileHead(s, g), n + 1), fs + [LoopFrame(n, n + 2)]), n + 2)
  }

  lemma WhileCode(s: Stmt, g: Gen, fs: seq<LoopFrame>)
    requires g.Valid() && s.While?
    ensures CompileStmt(s, g, fs) == MoveTo(WhileBody(s, g, fs), |g.blocks|)
  {
  }

  lemma WhileHeadShape(s: Stmt, g: Gen, fs: seq<LoopFrame>)
    requires Ready(g, fs) && s.While?
    ensures Partly(g, WhileHead(s, g), {|g.blocks|, |g.blocks| + 1})
  {
    var n := |g.blocks|;
    BranchAway(g, 3, Br(n + 2), fs, {n, n + 1, n + 2});
    var g1 := Emit(NewBlocks(g, 3), Br(n + 2));
    FramesGrow(fs, n, n + 3);
    StartBlock(g, g1, {n, n + 1, n + 2}, n + 2, fs);
    EmitGrows(MoveTo(g1, n + 2), CondBr(s.cond, n + 1, n), fs);
    CloseIt([], CondBr(s.cond, n + 1, n));
    FillBlock(g, g1, {n, n + 1, n + 2}, n + 2, WhileHead(s, g));
    assert {n, n + 1, n + 2} - {n + 2} == {n, n + 1};
  }

  ghost function RangeDone(s: Stmt, g: Gen, fs: seq<LoopFrame>): (g': Gen)
    requires g.Valid() && s.RangeFor?
    ensures g'.Valid() && |g'.blocks| >= |g.blocks| + 4
  {
    var n := |g.blocks|;
    RangeStep(RangeBody(s.body, RangeHead(s, g), s.name, n, fs + [LoopFrame(n + 3, n + 2)]), n)
  }

  lemma RangeCode(s: Stmt, g: Gen, fs: seq<LoopFrame>)
    requires g.Valid() && s.RangeFor?
    ensures CompileStmt(s, g, fs) == MoveTo(RangeDone(s, g, fs), |g.blocks| + 3)
  {
  }

  lemma {:induction false} RangeShape(s: Stmt, g: Gen, fs: seq<LoopFrame>)
    requires Ready(g, fs) && s.RangeFor?
    ensures Partly(g, RangeDone(s, g, fs), {|g.blocks| + 3})
    decreases s, 0
  {
    var n, fs' := |g.blocks|, fs + [LoopFrame(|g.blocks| + 3, |g.blocks| + 2)];
    RangeHeadShape(s, g, fs);
    FramesGrow(fs, n, n + 4);
    FillRangeBody(s.body, g, RangeHead(s, g), s.name, n, fs');
    FillStep(g, RangeBody(s.body, RangeHead(s, g), s.name, n, fs'), n);
  }

  ghost function RangeBody(ss: seq<Stmt>, g: Gen, x: string, n: Label, fs: seq<LoopFrame>): (g': Gen)
    requires n + 3 < |g.blocks|
    ensures g'.Valid() && |g'.blocks| >= |g.blocks|
  {
    CloseBody(CompileSeq(ss, Emit(MoveTo(g, n + 1), ILoopVar(x, n)), fs), n + 2)
  }

  ghost function RangeStep(g: Gen, n: Label): (g': Gen)
    requires n + 3 < |g.blocks|
    ensures g'.Valid() && |g'.blocks| == |g.blocks|
  {
    Emit(Emit(MoveTo(g, n + 2), IAdvance(n)), Br(n))
  }

  lemma {:induction false} FillRangeBody(ss: seq<Stmt>, g: Gen, g1: Gen, x: string, n: Label, fs: seq<LoopFrame>)
    requires Partly(g, g1, {n + 1, n + 2, n + 3}) && FramesExist(fs, |g1.blocks|)
    ensures Partly(g, RangeBody(ss, g1, x, n, fs), {n + 2, n + 3})
    decreases ss, 2
  {
    var todo, at := {n + 1, n + 2, n + 3}, MoveTo(g1, n + 1);
    StartBlock(g, g1, todo, n + 1, fs);
    EmitGrows(at, ILoopVar(x, n), fs);
    BodyGrows(ss, Emit(at, ILoopVar(x, n)), fs, n + 2);
    GrownTrans(at, Emit(at, ILoopVar(x, n)), RangeBody(ss, g1, x, n, fs));
    FillBlock(g, g1, todo, n + 1, RangeBody(ss, g1, x, n, fs));
    assert todo - {n + 1} == {n + 2, n + 3};
  }

  lemma FillStep(g: Gen, g1: Gen, n: Label)
    requires Partly(g, g1, {n + 2, n + 3})
    ensures Partly(g, RangeStep(g1, n), {n + 3})
  {
    var todo, at := {n + 2, n + 3}, MoveTo(g1, n + 2);
    StartBlock(g, g1, todo, n + 2, []);
    EmitGrows(at, IAdvance(n), []);
    EmitGrows(Emit(at, IAdvance(n)), Br(n), []);
    CloseIt([IAdvance(n)], Br(n));
    GrownTrans(at, Emit(at, IAdvance(n)), RangeStep(g1, n));
    FillBlock(g, g1, todo, n + 2, RangeStep(g1, n));
    assert todo - {n + 2} == {n + 3};
  }

  /** The builder when the header block of a range loop is done. */
  ghost function RangeHead(s: Stmt, g: Gen): (g': Gen)
    requires g.Valid() && s.RangeFor?
    ensures g'.Valid() && |g'.blocks| == |g.blocks| + 4
  {
    var n := |g.blocks|;
    var g1 := Emit(Emit(NewBlocks(g, 4), IRange(n, s.start, s.end, s.step)), Br(n));
    Emit(MoveTo(g1, n), RangeBr(n, n + 1, n + 3))
  }

  lemma RangeHeadShape(s: Stmt, g: Gen, fs: seq<LoopFrame>)
    requires Ready(g, fs) && s.RangeFor?
    ensures var n := |g.blocks|; Partly(g, RangeHead(s, g), {n + 1, n + 2, n + 3})
  {
    var n := |g.blocks|;
    var init := IRange(n, s.start, s.end, s.step);
    var g0 := Emit(g, init);
    EmitGrows(g, init, fs);
    BranchAway(g0, 4, Br(n), fs, {n, n + 1, n + 2, n + 3});
    var g1 := Emit(NewBlocks(g0, 4), Br(n));
    assert Emit(NewBlocks(g, 4), init) == NewBlocks(g0, 4);
    FramesGrow(fs, n, n + 4);
    StartBlock(g0, g1, {n, n + 1, n + 2, n + 3}, n, fs);
    EmitGrows(MoveTo(g1, n), RangeBr(n, n + 1, n + 3), fs);
    CloseIt([], RangeBr(n, n + 1, n + 3));
    FillBlock(g0, g1, {n, n + 1, n + 2, n + 3}, n, RangeHead(s, g));
    assert {n, n + 1, n + 2, n + 3} - {n} == {n + 1, n + 2, n + 3};
    PartlyAfterEmit(g, init, RangeHead(s, g), {n + 1, n + 2, n + 3});
  }

  lemma PartlyAfterEmit(g: Gen, i: Instr, g': Gen, todo: set<Label>)
    requires g.Valid() && Partly(Emit(g, i), g', todo)
    ensures Partly(g, g', todo)
  {
  }

  // ----- the whole program -----

  /** Every block of a compiled program has exactly one terminator, its last instruction, and
      every branch goes to an existing block. */
  lemma CompiledGraphIsWellFormed(ss: seq<Stmt>)
    ensures var g := CompileMain(ss);
            g != [] && TargetsExist(g) && forall l :: 0 <= l < |g| ==> Closed(g[l])
  {
    SeqGrows(ss, START, []);
    var g := CompileSeq(ss, START, []);
    OpenIsNotTerminated(g.Code());
    if !Terminated(g.Code()) {
      EmitGrows(g, IFlush, []);
      EmitGrows(Emit(g, IFlush), RetMain, []);
    }
  }
}
