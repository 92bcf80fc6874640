/** Emission of structured control flow into basic blocks, with a stack of loop frames that says
    where `break` and `continue` go. The functions are the specification; the class Builder
    below updates blocks, insertion point and loop stack in place. */
module FlowCompile {
  import opened Flow
  import opened FlowGraph

  datatype LoopFrame = LoopFrame(breakTo: Label, continueTo: Label)

  /** The blocks so far and the insertion point. */
  datatype Gen = Gen(blocks: Graph, cur: Label) {
    predicate Valid() {
      cur < |blocks|
    }

    function Code(): Code
      requires Valid()
    {
      blocks[cur]
    }
  }

  function Emit(g: Gen, i: Instr): (g': Gen)
    requires g.Valid()
    ensures g'.Valid() && |g'.blocks| == |g.blocks| && g'.cur == g.cur
  {
    g.(blocks := g.blocks[g.cur := g.blocks[g.cur] + [i]])
  }

  function NewBlocks(g: Gen, n: nat): (g': Gen)
    requires g.Valid()
    ensures g'.Valid() && |g'.blocks| == |g.blocks| + n
  {
    g.(blocks := g.blocks + seq(n, _ => []))
  }

  function MoveTo(g: Gen, l: Label): (g': Gen)
    requires l < |g.blocks|
    ensures g'.Valid()
  {
    g.(cur := l)
  }

  /** Branches unless the block already ends in a terminator. */
  function BranchIfOpen(g: Gen, l: Label): (g': Gen)
    requires g.Valid()
    ensures g'.Valid() && |g'.blocks| == |g.blocks|
  {
    if Terminated(g.Code()) then g else Emit(g, Br(l))
  }

  /** The end of a loop body: commit pending writes and go on, unless control has left. */
  function CloseBody(g: Gen, l: Label): (g': Gen)
    requires g.Valid()
    ensures g'.Valid() && |g'.blocks| == |g.blocks|
  {
    if Terminated(g.Code()) then g else Emit(Emit(g, IFlush), Br(l))
  }

  function CompileStmt(s: Stmt, g: Gen, fs: seq<LoopFrame>): (g': Gen)
    requires g.Valid()
    ensures g'.Valid() && |g'.blocks| >= |g.blocks|
    decreases s, 0
  {
    var n := |g.blocks|;
    match s
    case Bind(x, e, later) => Emit(g, IBind(x, e, later))
    case Block(b) => CompileSeq(b, g, fs)
    case If(c, thn, hasElse, els) =>
      if hasElse then
        var g1 := Emit(NewBlocks(g, 3), CondBr(c, n, n + 1));
        var g2 := BranchIfOpen(CompileSeq(thn, MoveTo(g1, n), fs), n + 2);
        var g3 := BranchIfOpen(CompileSeq(els, MoveTo(g2, n + 1), fs), n + 2);
        MoveTo(g3, n + 2)
      else
        var g1 := Emit(NewBlocks(g, 2), CondBr(c, n, n + 1));
        var g2 := BranchIfOpen(CompileSeq(thn, MoveTo(g1, n), fs), n + 1);
        MoveTo(g2, n + 1)
    case Infinite(b) =>
      var g1 := Emit(NewBlocks(g, 2), Br(n + 1));
      var g2 := CloseBody(CompileSeq(b, MoveTo(g1, n + 1), fs + [LoopFrame(n, n + 1)]), n + 1);
      MoveTo(g2, n)
    case While(c, b) =>
      var g1 := Emit(NewBlocks(g, 3), Br(n + 2));
      var g2 := Emit(MoveTo(g1, n + 2), CondBr(c, n + 1, n));
      var g3 := CloseBody(CompileSeq(b, MoveTo(g2, n + 1), fs + [LoopFrame(n, n + 2)]), n + 2);
      MoveTo(g3, n)
    case RangeFor(x, e1, e2, e3, b) =>
      var g1 := Emit(Emit(NewBlocks(g, 4), IRange(n, e1, e2, e3)), Br(n));
      var g2 := Emit(MoveTo(g1, n), RangeBr(n, n + 1, n + 3));
      var g3 := Emit(MoveTo(g2, n + 1), ILoopVar(x, n));
      var g4 := CloseBody(CompileSeq(b, g3, fs + [LoopFrame(n + 3, n + 2)]), n + 2);
      var g5 := Emit(Emit(MoveTo(g4, n + 2), IAdvance(n)), Br(n));
      MoveTo(g5, n + 3)
    case Break => if fs == [] then g else Emit(g, Br(fs[|fs| - 1].breakTo))
    case Continue(d) =>
      if fs == [] || d == 0 || d > |fs| then g else Emit(g, Br(fs[|fs| - d].continueTo))
    case Return(e) => Emit(g, Ret(e))
  }

  /** Statements behind one that ended the block are not emitted. */
  function CompileSeq(ss: seq<Stmt>, g: Gen, fs: seq<LoopFrame>): (g': Gen)
    requires g.Valid()
    ensures g'.Valid() && |g'.blocks| >= |g.blocks|
    decreases ss, 0
  {
    if ss == [] then g
    else
      var g1 := CompileStmt(ss[0], g, fs);
      if Terminated(g1.Code()) then g1 else CompileSeq(ss[1..], g1, fs)
  }

  const START: Gen := Gen([[]], 0)

  /** The whole program: the entry block, the statements, the final commit and return. */
  function CompileMain(ss: seq<Stmt>): Graph {
    var g := CompileSeq(ss, START, []);
    (if Terminated(g.Code()) then g else Emit(Emit(g, IFlush), RetMain)).blocks
  }

  // ----- emission in place -----

  class Builder {
    var blocks: Graph
    var cur: Label
    var loopStack: seq<LoopFrame>

    ghost predicate Valid()
      reads this
    {
      cur < |blocks|
    }

    ghost function View(): (g: Gen)
      requires Valid()
      reads this
      ensures g.Valid()
    {
      Gen(blocks, cur)
    }

    constructor ()
      ensures Valid() && View() == START && loopStack == []
    {
      blocks, cur, loopStack := [[]], 0, [];
    }

    method CreateBlock() returns (l: Label)
      requires Valid()
      modifies this
      ensures Valid() && l == |old(blocks)| && View() == NewBlocks(old(View()), 1)
      ensures loopStack == old(loopStack)
    {
      l := |blocks|;
      blocks := blocks + [[]];
    }

    method Append(i: Instr)
      requires Valid()
      modifies this
      ensures Valid() && View() == Emit(old(View()), i) && loopStack == old(loopStack)
    {
      blocks := blocks[cur := blocks[cur] + [i]];
    }

    method CreateBrIfOpen(l: Label)
      requires Valid()
      modifies this
      ensures Valid() && View() == BranchIfOpen(old(View()), l) && loopStack == old(loopStack)
    {
      if !Terminated(blocks[cur]) {
        Append(Br(l));
      }
    }

    method FinishBody(l: Label)
      requires Valid()
      modifies this
      ensures Valid() && View() == CloseBody(old(View()), l) && loopStack == old(loopStack)
    {
      if !Terminated(blocks[cur]) {
        Append(IFlush);
      }
      if !Terminated(blocks[cur]) {
        Append(Br(l));
      }
    }

    method EmitBlock(ss: seq<Stmt>)
      requires Valid()
      modifies this
      ensures Valid() && View() == CompileSeq(ss, old(View()), old(loopStack))
      ensures loopStack == old(loopStack)
      decreases ss, 1
    {
      var i := 0;
      assert ss[0..] == ss;
      while i < |ss|
        invariant 0 <= i <= |ss| && Valid() && loopStack == old(loopStack)
        invariant CompileSeq(ss[i..], View(), loopStack) == CompileSeq(ss, old(View()), old(loopStack))
      {
        assert ss[i..][0] == ss[i] && ss[i..][1..] == ss[i + 1..];
        EmitStmt(ss[i]);
        if Terminated(blocks[cur]) {
          return;
        }
        i := i + 1;
      }
    }

    method EmitStmt(s: Stmt)
      requires Valid()
      modifies this
      ensures Valid() && View() == CompileStmt(s, old(View()), old(loopStack))
      ensures loopStack == old(loopStack)
      decreases s, 1
    {
      match s
      case Bind(x, e, later) => Append(IBind(x, e, later));
      case Block(b) => EmitBlock(b);
      case If(_, _, hasElse, _) => if hasElse { EmitIfElse(s); } else { EmitIf(s); }
      case Infinite(_) => EmitInfinite(s);
      case While(_, _) => EmitWhile(s);
      case RangeFor(_, _, _, _, _) => EmitRangeFor(s);
      case Break =>
        if |loopStack| > 0 {
          Append(Br(loopStack[|loopStack| - 1].breakTo));
        }
      case Continue(d) =>
        if |loopStack| > 0 && d != 0 && d <= |loopStack| {
          Append(Br(loopStack[|loopStack| - d].continueTo));
        }
      case Return(e) => Append(Ret(e));
    }

    method EmitIf(s: Stmt)
      requires Valid() && s.If? && !s.hasElse
      modifies this
      ensures Valid() && View() == CompileStmt(s, old(View()), old(loopStack))
      ensures loopStack == old(loopStack)
      decreases s, 0
    {
      var thenBlock := CreateBlock();
      var exitBlock := CreateBlock();
      assert View() == NewBlocks(old(View()), 2);
      Append(CondBr(s.cond, thenBlock, exitBlock));
      EmitArm(s.thn, thenBlock, exitBlock);
      cur := exitBlock;
    }

    method EmitIfElse(s: Stmt)
      requires Valid() && s.If? && s.hasElse
      modifies this
      ensures Valid() && View() == CompileStmt(s, old(View()), old(loopStack))
      ensures loopStack == old(loopStack)
      decreases s, 0
    {
      var thenBlock := CreateBlock();
      var elseBlock := CreateBlock();
      var exitBlock := CreateBlock();
      assert View() == NewBlocks(old(View()), 3);
      Append(CondBr(s.cond, thenBlock, elseBlock));
      EmitArm(s.thn, thenBlock, exitBlock);
      EmitArm(s.els, elseBlock, exitBlock);
      cur := exitBlock;
    }

    method EmitArm(ss: seq<Stmt>, arm: Label, exit: Label)
      requires Valid() && arm < |blocks|
      modifies this
      ensures Valid() && View() == BranchIfOpen(CompileSeq(ss, MoveTo(old(View()), arm), old(loopStack)), exit)
      ensures loopStack == old(loopStack)
      decreases ss, 2
    {
      cur := arm;
      EmitBlock(ss);
      CreateBrIfOpen(exit);
    }

    method EmitInfinite(s: Stmt)
      requires Valid() && s.Infinite?
      modifies this
      ensures Valid() && View() == CompileStmt(s, old(View()), old(loopStack))
      ensures loopStack == old(loopStack)
      decreases s, 0
    {
      var exitBlock := CreateBlock();
      var bodyBlock := CreateBlock();
      assert View() == NewBlocks(old(View()), 2);
      Append(Br(bodyBlock));
      loopStack := loopStack + [LoopFrame(exitBlock, bodyBlock)];
      cur := bodyBlock;
      EmitBlock(s.body);
      FinishBody(bodyBlock);
      cur := exitBlock;
      loopStack := loopStack[..|loopStack| - 1];
    }

    method EmitWhile(s: Stmt)
      requires Valid() && s.While?
      modifies this
      ensures Valid() && View() == CompileStmt(s, old(View()), old(loopStack))
      ensures loopStack == old(loopStack)
      decreases s, 0
    {
      var exitBlock := CreateBlock();
      var bodyBlock := CreateBlock();
      var condBlock := CreateBlock();
      assert View() == NewBlocks(old(View()), 3);
      Append(Br(condBlock));
      cur := condBlock;
      Append(CondBr(s.cond, bodyBlock, exitBlock));
      loopStack := loopStack + [LoopFrame(exitBlock, condBlock)];
      cur := bodyBlock;
      EmitBlock(s.body);
      FinishBody(condBlock);
      cur := exitBlock;
      loopStack := loopStack[..|loopStack| - 1];
    }

    method EmitRangeFor(s: Stmt)
      requires Valid() && s.RangeFor?
      modifies this
      ensures Valid() && View() == CompileStmt(s, old(View()), old(loopStack))
      ensures loopStack == old(loopStack)
      decreases s, 0
    {
      var hdrBlock := CreateBlock();
      var bodyBlock := CreateBlock();
      var stepBlock := CreateBlock();
      var exitBlock := CreateBlock();
      assert View() == NewBlocks(old(View()), 4);
      Append(IRange(hdrBlock, s.start, s.end, s.step));
      Append(Br(hdrBlock));
      cur := hdrBlock;
      Append(RangeBr(hdrBlock, bodyBlock, exitBlock));
      loopStack := loopStack + [LoopFrame(exitBlock, stepBlock)];
      cur := bodyBlock;
      Append(ILoopVar(s.name, hdrBlock));
      EmitBlock(s.body);
      FinishBody(stepBlock);
      cur := stepBlock;
      Append(IAdvance(hdrBlock));
      Append(Br(hdrBlock));
      cur := exitBlock;
      loopStack := loopStack[..|loopStack| - 1];
    }

    method EmitMain(ss: seq<Stmt>)
      requires Valid() && View() == START && loopStack == []
      modifies this
      ensures blocks == CompileMain(ss)
    {
      EmitBlock(ss);
      if !Terminated(blocks[cur]) {
        Append(IFlush);
        Append(RetMain);
      }
    }
  }
}
