/** Free occurrences, defined on the text of a body instead of its tree: a body is a row of uses
    and definitions in the order the walk meets them, with marks where blocks open and close. A
    use is free if no earlier definition of its name stands in a block that is still open. The
    names that the walk collects are exactly those with a free use. */
module CaptureFree {
  import opened Capture

  datatype Token = Use(name: string) | Def(name: string) | Open | Close

  function Trace(n: Node): seq<Token>
    decreases n, 0
  {
    match n
    case Name(x) => [Use(x)]
    case VarDecl(x, init) => if init == Absent then [Use(x)] else Trace(init)
    case Binary(_, l, r) => Trace(l) + Trace(r)
    case Return(e) => Trace(e)
    case Block(b) => Scoped(TraceSeq(b))
    case Bind(x, e) => Trace(e) + [Def(x)]
    case Loop(c, b) => Trace(c) + Scoped(TraceSeq(b))
    case ForEach(x, e, b) => Trace(e) + Scoped([Def(x)] + TraceSeq(b))
    case RangeFor(x, e1, e2, e3, b) => Trace(e1) + Trace(e2) + Trace(e3) + Scoped([Def(x)] + TraceSeq(b))
    case If(c, t, f) => Trace(c) + Scoped(TraceSeq(t)) + Scoped(TraceSeq(f))
    case Match(e, arms, d) => Trace(e) + TraceArms(arms) + Scoped(TraceSeq(d))
    case FlowBind(e, x) => Trace(e) + [Use(x)]
    case Write(es) => TraceSeq(es)
    case _ => []
  }

  function TraceSeq(ns: seq<Node>): seq<Token>
    decreases ns, 0
  {
    if ns == [] then [] else Trace(ns[0]) + TraceSeq(ns[1..])
  }

  function TraceArms(arms: seq<Arm>): seq<Token>
    decreases arms, 0
  {
    if arms == [] then [] else Scoped(TraceSeq(arms[0].body)) + TraceArms(arms[1..])
  }

  function Scoped(t: seq<Token>): seq<Token> {
    [Open] + t + [Close]
  }

  // ----- blocks -----

  function Depth(t: seq<Token>): int {
    if t == [] then 0
    else Depth(t[..|t| - 1]) + (match t[|t| - 1] case Open => 1 case Close => -1 case _ => 0)
  }

  /** No block is closed that was not opened, and none is left open. */
  ghost predicate Balanced(t: seq<Token>) {
    Depth(t) == 0 && forall k :: 0 <= k <= |t| ==> Depth(t[..k]) >= 0
  }

  /** The block around position j is still open at the end of t. */
  ghost predicate StillOpen(t: seq<Token>, j: nat)
    requires j <= |t|
  {
    forall k :: j <= k <= |t| ==> Depth(t[..k]) >= Depth(t[..j])
  }

  ghost predicate Visible(t: seq<Token>, x: string) {
    exists j :: 0 <= j < |t| && t[j] == Def(x) && StillOpen(t, j)
  }

  ghost predicate HasFreeUse(t: seq<Token>, x: string) {
    exists i :: 0 <= i < |t| && FreeAt(t, i, x)
  }

  ghost predicate FreeAt(t: seq<Token>, i: nat, x: string)
    requires i < |t|
  {
    t[i] == Use(x) && !Visible(t[..i], x)
  }

  lemma {:induction false} DepthAppend(a: seq<Token>, b: seq<Token>)
    ensures Depth(a + b) == Depth(a) + Depth(b)
    decreases |b|
  {
    if b == [] {
      assert a + b == a;
    } else {
      var m := |b| - 1;
      assert (a + b)[..|a + b| - 1] == a + b[..m];
      DepthAppend(a, b[..m]);
    }
  }

  /** The depth at a position of a + b. */
  lemma DepthInside(a: seq<Token>, b: seq<Token>, k: nat)
    requires k <= |a| + |b|
    ensures k <= |a| ==> (a + b)[..k] == a[..k]
    ensures k >= |a| ==> (a + b)[..k] == a + b[..k - |a|] && Depth((a + b)[..k]) == Depth(a) + Depth(b[..k - |a|])
  {
    if k >= |a| {
      DepthAppend(a, b[..k - |a|]);
    }
  }

  ghost predicate NoneBelow(t: seq<Token>) {
    forall k :: 0 <= k <= |t| ==> Depth(t[..k]) >= 0
  }

  lemma NoneBelowAppend(a: seq<Token>, b: seq<Token>)
    requires Balanced(a) && Balanced(b)
    ensures Balanced(a + b)
  {
    forall k | 0 <= k <= |a + b| ensures Depth((a + b)[..k]) >= 0 {
      DepthInside(a, b, k);
    }
    DepthAppend(a, b);
  }

  lemma OpenLeft(a: seq<Token>, b: seq<Token>, j: nat)
    requires NoneBelow(b) && j <= |a|
    ensures StillOpen(a + b, j) <==> StillOpen(a, j)
  {
    var t := a + b;
    DepthInside(a, b, j);
    if StillOpen(a, j) {
      assert a[..|a|] == a;
      forall k | j <= k <= |t| ensures Depth(t[..k]) >= Depth(t[..j]) {
        DepthInside(a, b, k);
      }
    }
    if StillOpen(t, j) {
      forall k | j <= k <= |a| ensures Depth(a[..k]) >= Depth(a[..j]) {
        DepthInside(a, b, k);
      }
    }
  }

  lemma OpenRight(a: seq<Token>, b: seq<Token>, j: nat)
    requires j <= |b|
    ensures StillOpen(a + b, |a| + j) <==> StillOpen(b, j)
  {
    var t := a + b;
    DepthInside(a, b, |a| + j);
    if StillOpen(b, j) {
      forall k | |a| + j <= k <= |t| ensures Depth(t[..k]) >= Depth(t[..|a| + j]) {
        DepthInside(a, b, k);
      }
    }
    if StillOpen(t, |a| + j) {
      forall k | j <= k <= |b| ensures Depth(b[..k]) >= Depth(b[..j]) {
        DepthInside(a, b, |a| + k);
      }
    }
  }

  /** Behind a row that closes no block of a, the definitions of a are as visible as before. */
  lemma VisibleAppend(a: seq<Token>, b: seq<Token>, x: string)
    requires NoneBelow(b)
    ensures Visible(a + b, x) <==> Visible(a, x) || Visible(b, x)
  {
    var t := a + b;
    forall j | 0 <= j < |a| ensures t[j] == a[j] && (StillOpen(t, j) <==> StillOpen(a, j)) {
      OpenLeft(a, b, j);
    }
    forall j | 0 <= j < |b| ensures t[|a| + j] == b[j] && (StillOpen(t, |a| + j) <==> StillOpen(b, j)) {
      OpenRight(a, b, j);
    }
    if Visible(b, x) {
      var j :| 0 <= j < |b| && b[j] == Def(x) && StillOpen(b, j);
      assert t[|a| + j] == Def(x) && StillOpen(t, |a| + j);
    }
    if Visible(t, x) {
      var j :| 0 <= j < |t| && t[j] == Def(x) && StillOpen(t, j);
      if j >= |a| {
        var k := j - |a|;
        assert t[|a| + k] == b[k] && StillOpen(b, k);
      }
    }
  }

  lemma PrefixNoneBelow(b: seq<Token>, i: nat)
    requires NoneBelow(b) && i <= |b|
    ensures NoneBelow(b[..i])
  {
    assert forall k :: 0 <= k <= i ==> b[..i][..k] == b[..k];
  }

  lemma FreeRight(a: seq<Token>, b: seq<Token>, i: nat, x: string)
    requires NoneBelow(b) && i < |b|
    ensures FreeAt(a + b, |a| + i, x) <==> !Visible(a, x) && FreeAt(b, i, x)
  {
    DepthInside(a, b, |a| + i);
    PrefixNoneBelow(b, i);
    VisibleAppend(a, b[..i], x);
    assert (a + b)[|a| + i] == b[i];
  }

  lemma FreeLeft(a: seq<Token>, b: seq<Token>, i: nat, x: string)
    requires i < |a|
    ensures FreeAt(a + b, i, x) <==> FreeAt(a, i, x)
  {
    assert (a + b)[i] == a[i] && (a + b)[..i] == a[..i];
  }

  /** A use behind a is free if it is so in its own row and a shows no definition of the name. */
  lemma FreeAppend(a: seq<Token>, b: seq<Token>, x: string)
    requires NoneBelow(b)
    ensures HasFreeUse(a + b, x) <==> HasFreeUse(a, x) || (!Visible(a, x) && HasFreeUse(b, x))
  {
    if HasFreeUse(a + b, x) {
      var i :| 0 <= i < |a + b| && FreeAt(a + b, i, x);
      if i < |a| {
        FreeLeft(a, b, i, x);
      } else {
        FreeRight(a, b, i - |a|, x);
      }
    }
    if HasFreeUse(a, x) {
      var i :| 0 <= i < |a| && FreeAt(a, i, x);
      FreeLeft(a, b, i, x);
    }
    if !Visible(a, x) && HasFreeUse(b, x) {
      var i :| 0 <= i < |b| && FreeAt(b, i, x);
      FreeRight(a, b, i, x);
    }
  }

  // ----- a block -----

  lemma OneToken(t: Token, x: string)
    ensures Depth([t]) == (match t case Open => 1 case Close => -1 case _ => 0)
    ensures Visible([t], x) <==> t == Def(x)
    ensures HasFreeUse([t], x) <==> t == Use(x)
    ensures !t.Close? ==> NoneBelow([t])
  {
    assert [t][..0] == [] && [t][..1] == [t] && Depth([]) == 0;
    if t == Def(x) {
      assert [t][0] == Def(x) && StillOpen([t], 0);
    }
    if t == Use(x) {
      assert FreeAt([t], 0, x);
    }
  }

  /** A block shows nothing to what follows it, and has the free uses of what is inside. */
  lemma BlockHides(t: seq<Token>, x: string)
    requires Balanced(t)
    ensures Balanced(Scoped(t)) && !Visible(Scoped(t), x) && (HasFreeUse(Scoped(t), x) <==> HasFreeUse(t, x))
  {
    var inside := [Open] + t;
    var all := Scoped(t);
    assert all == inside + [Close] && all[..|all|] == all;
    OneToken(Open, x);
    OneToken(Close, x);
    DepthAppend([Open], t);
    DepthAppend(inside, [Close]);
    FreeAppend([Open], t, x);
    forall k | 0 <= k <= |all| ensures Depth(all[..k]) >= if 0 < k < |all| then 1 else 0 {
      if k == 0 {
        assert all[..k] == [];
      } else if k < |all| {
        DepthInside([Open], t, k);
        assert all[..k] == inside[..k];
      }
    }
    assert forall j :: 0 <= j < |all| && all[j] == Def(x) ==> !StillOpen(all, j);
    forall i: nat | i < |inside| ensures FreeAt(all, i, x) <==> FreeAt(inside, i, x) {
      FreeLeft(inside, [Close], i, x);
    }
    assert all[|inside|] == Close;
  }

  // ----- the walk collects the free uses -----

  /** What a row of tokens says about x: whether the walk collects it, and whether it is bound
      afterwards. */
  ghost predicate Tells(t: seq<Token>, x: string, locals: set<string>, refs: set<string>, bound: set<string>) {
    && Balanced(t)
    && (x in refs <==> x !in locals && HasFreeUse(t, x))
    && (x in bound <==> x in locals || Visible(t, x))
  }

  lemma NothingTells(x: string, locals: set<string>)
    ensures Tells([], x, locals, {}, locals)
  {
  }

  lemma TokenTells(t: Token, x: string, locals: set<string>)
    requires t.Use? || t.Def?
    ensures t.Use? ==> Tells([t], x, locals, {t.name} - locals, locals)
    ensures t.Def? ==> Tells([t], x, locals, {}, locals + {t.name})
  {
    OneToken(t, x);
  }

  lemma BothTell(a: seq<Token>, b: seq<Token>, x: string, locals: set<string>, refs1: set<string>, bound1: set<string>,
                 refs2: set<string>, bound2: set<string>)
    requires Tells(a, x, locals, refs1, bound1) && Tells(b, x, bound1, refs2, bound2)
    ensures Tells(a + b, x, locals, refs1 + refs2, bound2)
  {
    NoneBelowAppend(a, b);
    VisibleAppend(a, b, x);
    FreeAppend(a, b, x);
  }

  lemma BlockTells(t: seq<Token>, x: string, locals: set<string>, refs: set<string>, bound: set<string>)
    requires Tells(t, x, locals, refs, bound)
    ensures Tells(Scoped(t), x, locals, refs, locals)
  {
    BlockHides(t, x);
  }

  /** For every node, name and set of names bound before: the walk collects exactly the names
      that are not bound before and have a free use, and ends with those that were bound before
      or have a definition outside all blocks. */
  lemma {:induction false} RefsAreFreeUses(n: Node, x: string, locals: set<string>)
    ensures Tells(Trace(n), x, locals, Refs(n, locals), Bound(n, locals))
    decreases n, 2
  {
    match n
    case Name(y) => TokenTells(Use(y), x, locals);
    case VarDecl(y, init) =>
      TokenTells(Use(y), x, locals);
      if init != Absent {
        RefsAreFreeUses(init, x, locals);
      }
    case Binary(_, _, _) => TwoTell(n, x, locals);
    case Return(e) => RefsAreFreeUses(e, x, locals);
    case Block(b) => ScopeTells(b, x, locals);
    case Bind(y, e) =>
      RefsAreFreeUses(e, x, locals);
      var l := Bound(e, locals);
      TokenTells(Def(y), x, l);
      BothTell(Trace(e), [Def(y)], x, locals, Refs(e, locals), l, {}, l + {y});
      assert Refs(e, locals) + {} == Refs(e, locals);
    case FlowBind(e, y) =>
      RefsAreFreeUses(e, x, locals);
      var l := Bound(e, locals);
      TokenTells(Use(y), x, l);
      BothTell(Trace(e), [Use(y)], x, locals, Refs(e, locals), l, {y} - l, l);
    case Loop(c, b) =>
      RefsAreFreeUses(c, x, locals);
      var l := Bound(c, locals);
      ScopeTells(b, x, l);
      BothTell(Trace(c), Scoped(TraceSeq(b)), x, locals, Refs(c, locals), l, RefsSeq(b, l), l);
    case ForEach(y, e, b) =>
      RefsAreFreeUses(e, x, locals);
      var l := Bound(e, locals);
      BodyTells(y, b, x, l);
      BothTell(Trace(e), Scoped([Def(y)] + TraceSeq(b)), x, locals, Refs(e, locals), l, RefsSeq(b, l + {y}), l);
    case RangeFor(_, _, _, _, _) => RangeTells(n, x, locals);
    case If(_, _, _) => BranchTells(n, x, locals);
    case Match(_, _, _) => MatchTells(n, x, locals);
    case Write(es) => SeqTells(es, x, locals);
    case _ => NothingTells(x, locals);
  }

  lemma {:induction false} TwoTell(n: Node, x: string, locals: set<string>)
    requires n.Binary?
    ensures Tells(Trace(n), x, locals, Refs(n, locals), Bound(n, locals))
    decreases n, 1
  {
    var l := Bound(n.lhs, locals);
    RefsAreFreeUses(n.lhs, x, locals);
    RefsAreFreeUses(n.rhs, x, l);
    BothTell(Trace(n.lhs), Trace(n.rhs), x, locals, Refs(n.lhs, locals), l, Refs(n.rhs, l), Bound(n.rhs, l));
  }

  lemma {:induction false} BranchTells(n: Node, x: string, locals: set<string>)
    requires n.If?
    ensures Tells(Trace(n), x, locals, Refs(n, locals), Bound(n, locals))
    decreases n, 1
  {
    var l := Bound(n.cond, locals);
    var thn, els := Scoped(TraceSeq(n.thn)), Scoped(TraceSeq(n.els));
    RefsAreFreeUses(n.cond, x, locals);
    ScopeTells(n.thn, x, l);
    ScopeTells(n.els, x, l);
    BothTell(Trace(n.cond), thn, x, locals, Refs(n.cond, locals), l, RefsSeq(n.thn, l), l);
    BothTell(Trace(n.cond) + thn, els, x, locals, Refs(n.cond, locals) + RefsSeq(n.thn, l), l, RefsSeq(n.els, l), l);
  }

  lemma {:induction false} MatchTells(n: Node, x: string, locals: set<string>)
    requires n.Match?
    ensures Tells(Trace(n), x, locals, Refs(n, locals), Bound(n, locals))
    decreases n, 1
  {
    var l := Bound(n.e, locals);
    var arms, dflt := TraceArms(n.arms), Scoped(TraceSeq(n.dflt));
    RefsAreFreeUses(n.e, x, locals);
    ArmsTell(n.arms, x, l);
    ScopeTells(n.dflt, x, l);
    BothTell(Trace(n.e), arms, x, locals, Refs(n.e, locals), l, RefsArms(n.arms, l), l);
    BothTell(Trace(n.e) + arms, dflt, x, locals, Refs(n.e, locals) + RefsArms(n.arms, l), l, RefsSeq(n.dflt, l), l);
  }

  lemma {:induction false} RangeTells(n: Node, x: string, locals: set<string>)
    requires n.RangeFor?
    ensures Tells(Trace(n), x, locals, Refs(n, locals), Bound(n, locals))
    decreases n, 1
  {
    var l1 := Bound(n.start, locals);
    var l2 := Bound(n.end, l1);
    var l3 := Bound(n.step, l2);
    RefsAreFreeUses(n.start, x, locals);
    RefsAreFreeUses(n.end, x, l1);
    RefsAreFreeUses(n.step, x, l2);
    BodyTells(n.name, n.body, x, l3);
    var t2 := Trace(n.start) + Trace(n.end);
    var t3 := t2 + Trace(n.step);
    var r2 := Refs(n.start, locals) + Refs(n.end, l1);
    BothTell(Trace(n.start), Trace(n.end), x, locals, Refs(n.start, locals), l1, Refs(n.end, l1), l2);
    BothTell(t2, Trace(n.step), x, locals, r2, l2, Refs(n.step, l2), l3);
    BothTell(t3, Scoped([Def(n.name)] + TraceSeq(n.body)), x, locals,
             r2 + Refs(n.step, l2), l3, RefsSeq(n.body, l3 + {n.name}), l3);
  }

  lemma {:induction false} SeqTells(ns: seq<Node>, x: string, locals: set<string>)
    ensures Tells(TraceSeq(ns), x, locals, RefsSeq(ns, locals), BoundSeq(ns, locals))
    decreases ns, 2
  {
    if ns == [] {
      NothingTells(x, locals);
    } else {
      var l := Bound(ns[0], locals);
      RefsAreFreeUses(ns[0], x, locals);
      SeqTells(ns[1..], x, l);
      BothTell(Trace(ns[0]), TraceSeq(ns[1..]), x, locals, Refs(ns[0], locals), l, RefsSeq(ns[1..], l),
               BoundSeq(ns[1..], l));
    }
  }

  lemma {:induction false} ScopeTells(b: seq<Node>, x: string, locals: set<string>)
    ensures Tells(Scoped(TraceSeq(b)), x, locals, RefsSeq(b, locals), locals)
    decreases b, 3
  {
    SeqTells(b, x, locals);
    BlockTells(TraceSeq(b), x, locals, RefsSeq(b, locals), BoundSeq(b, locals));
  }

  /** The body of a loop sees the loop variable. */
  lemma {:induction false} BodyTells(y: string, b: seq<Node>, x: string, locals: set<string>)
    ensures Tells(Scoped([Def(y)] + TraceSeq(b)), x, locals, RefsSeq(b, locals + {y}), locals)
    decreases b, 3
  {
    var l := locals + {y};
    TokenTells(Def(y), x, locals);
    SeqTells(b, x, l);
    BothTell([Def(y)], TraceSeq(b), x, locals, {}, l, RefsSeq(b, l), BoundSeq(b, l));
    assert {} + RefsSeq(b, l) == RefsSeq(b, l);
    BlockTells([Def(y)] + TraceSeq(b), x, locals, RefsSeq(b, l), BoundSeq(b, l));
  }

  lemma {:induction false} ArmsTell(arms: seq<Arm>, x: string, locals: set<string>)
    ensures Tells(TraceArms(arms), x, locals, RefsArms(arms, locals), locals)
    decreases arms, 2
  {
    if arms == [] {
      NothingTells(x, locals);
    } else {
      ScopeTells(arms[0].body, x, locals);
      ArmsTell(arms[1..], x, locals);
      BothTell(Scoped(TraceSeq(arms[0].body)), TraceArms(arms[1..]), x, locals,
               RefsSeq(arms[0].body, locals), locals, RefsArms(arms[1..], locals), locals);
    }
  }

  /** The names collected for a task are exactly those with a free use in its body. */
  lemma TaskCollectsFreeUses(body: seq<Node>, x: string)
    ensures x in RefsSeq(body, {}) <==> HasFreeUse(TraceSeq(body), x)
  {
    SeqTells(body, x, {});
  }
}
