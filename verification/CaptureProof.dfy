/** The coincidence theorem for task bodies, and what it says about the captures chosen from the
    names the walk collects. */
module CaptureProof {
  import opened Int64
  import opened Capture

  // ----- what a run reads -----

  /** The names that running a node may read from its environment, given those bound before it:
      unlike the walk, this follows the run into fallback operands, and not into initializers
      or the scrutinee of a match without arms. */
  function Reads(n: Node, locals: set<string>): set<string>
    decreases n, 0
  {
    match n
    case Name(x) => {x} - locals
    case Binary(_, l, r) => Reads(l, locals) + Reads(r, Binds(l, locals))
    case Return(e) => Reads(e, locals)
    case Block(b) => ReadsSeq(b, locals)
    case Bind(_, e) => Reads(e, locals)
    case FlowBind(e, _) => Reads(e, locals)
    case Loop(c, b) => Reads(c, locals) + ReadsSeq(b, Binds(c, locals))
    case ForEach(x, e, b) => Reads(e, locals) + ReadsSeq(b, Binds(e, locals) + {x})
    case RangeFor(x, e1, e2, e3, b) =>
      var l1 := Binds(e1, locals);
      var l2 := Binds(e2, l1);
      Reads(e1, locals) + Reads(e2, l1) + Reads(e3, l2) + ReadsSeq(b, Binds(e3, l2) + {x})
    case If(c, t, f) => Reads(c, locals) + ReadsSeq(t, Binds(c, locals)) + ReadsSeq(f, Binds(c, locals))
    case Match(e, arms, d) =>
      if arms == [] then ReadsSeq(d, locals)
      else Reads(e, locals) + ReadsArms(arms, Binds(e, locals)) + ReadsSeq(d, Binds(e, locals))
    case Write(es) => ReadsSeq(es, locals)
    case Fallback(p, a) => Reads(p, locals) + Reads(a, Binds(p, locals))
    case _ => {}
  }

  function ReadsSeq(ns: seq<Node>, locals: set<string>): set<string>
    decreases ns, 0
  {
    if ns == [] then {} else Reads(ns[0], locals) + ReadsSeq(ns[1..], Binds(ns[0], locals))
  }

  function ReadsArms(arms: seq<Arm>, locals: set<string>): set<string>
    decreases arms, 0
  {
    if arms == [] then {} else ReadsSeq(arms[0].body, locals) + ReadsArms(arms[1..], locals)
  }

  /** The names that have been bound whenever a node ends normally. */
  function Binds(n: Node, locals: set<string>): set<string>
    decreases n, 0
  {
    match n
    case Binary(_, l, r) => Binds(r, Binds(l, locals))
    case Return(e) => Binds(e, locals)
    case Bind(x, e) => Binds(e, locals) + {x}
    case FlowBind(e, x) => Binds(e, locals) + {x}
    case Loop(c, _) => Binds(c, locals)
    case ForEach(_, e, _) => Binds(e, locals)
    case RangeFor(_, e1, e2, e3, _) => Binds(e3, Binds(e2, Binds(e1, locals)))
    case If(c, _, _) => Binds(c, locals)
    case Match(e, arms, _) => if arms == [] then locals else Binds(e, locals)
    case Write(es) => BindsSeq(es, locals)
    case Fallback(p, a) => Binds(a, Binds(p, locals))
    case _ => locals
  }

  function BindsSeq(ns: seq<Node>, locals: set<string>): set<string>
    decreases ns, 0
  {
    if ns == [] then locals else BindsSeq(ns[1..], Binds(ns[0], locals))
  }

  // ----- agreement -----

  /** A name that is not bound reads as 0, so only what a read gives matters. */
  ghost predicate Agree(e1: Env, e2: Env, s: set<string>) {
    forall x :: x in s ==> Get(e1, x) == Get(e2, x)
  }

  /** The outcomes differ in their environments only, and these agree on s, and on `bound` as
      well if the node ended normally. */
  ghost predicate Same(o1: Outcome, o2: Outcome, s: set<string>, bound: set<string>) {
    o1 == o2.(env := o1.env) && Agree(o1.env, o2.env, s) && (o1.sig.Done? ==> Agree(o1.env, o2.env, bound))
  }

  // ----- coincidence -----

  /** Environments that agree on what a node reads run it to the same result, the same output
      and environments that agree on whatever they agreed on before. */
  lemma {:induction false} Coincide(n: Node, locals: set<string>, s: set<string>, e1: Env, e2: Env, fuel: nat)
    requires Reads(n, locals) <= s && locals <= s && Agree(e1, e2, s)
    ensures Same(Run(n, e1, fuel), Run(n, e2, fuel), s, Binds(n, locals))
    decreases fuel, n, 3
  {
    match n
    case Name(x) =>
    case Binary(_, l, r) => CoincideTwo(n, l, r, locals, s, e1, e2, fuel);
    case Return(e) => Coincide(e, locals, s, e1, e2, fuel);
    case Block(b) => CoincideSeq(b, locals, s, e1, e2, fuel);
    case Bind(x, e) => CoincideBind(x, e, locals, s, e1, e2, fuel);
    case FlowBind(e, x) => CoincideBind(x, e, locals, s, e1, e2, fuel);
    case Loop(c, b) => CoincideLoop(c, b, locals, s, e1, e2, fuel);
    case ForEach(_, _, _) => CoincideForEach(n, locals, s, e1, e2, fuel);
    case RangeFor(_, _, _, _, _) => CoincideRangeFor(n, locals, s, e1, e2, fuel);
    case If(_, _, _) => CoincideIf(n, locals, s, e1, e2, fuel);
    case Match(_, _, _) => CoincideMatch(n, locals, s, e1, e2, fuel);
    case Write(es) => CoincideWrites(es, locals, s, e1, e2, fuel);
    case Fallback(p, a) => CoincideTwo(n, p, a, locals, s, e1, e2, fuel);
    case _ =>
  }

  lemma {:induction false} CoincideBind(x: string, e: Node, locals: set<string>, s: set<string>, e1: Env, e2: Env,
                                        fuel: nat)
    requires Reads(e, locals) <= s && locals <= s && Agree(e1, e2, s)
    ensures Same(RunBind(x, e, e1, fuel), RunBind(x, e, e2, fuel), s, Binds(e, locals) + {x})
    decreases fuel, e, 4
  {
    Coincide(e, locals, s, e1, e2, fuel);
    var o1, o2 := Run(e, e1, fuel), Run(e, e2, fuel);
    if o1.sig.Done? {
      SetAlike(o1.env, o2.env, x, o1.sig.v, s);
      SetAlike(o1.env, o2.env, x, o1.sig.v, Binds(e, locals));
    }
  }

  lemma SetAlike(e1: Env, e2: Env, x: string, v: Value, s: set<string>)
    requires Agree(e1, e2, s)
    ensures Agree(e1[x := v], e2[x := v], s + {x})
  {
  }

  lemma {:induction false} CoincideTwo(n: Node, l: Node, r: Node, locals: set<string>, s: set<string>, e1: Env,
                                       e2: Env, fuel: nat)
    requires l < n && r < n
    requires Reads(l, locals) <= s && Reads(r, Binds(l, locals)) <= s && locals <= s && Agree(e1, e2, s)
    ensures Same(RunTwo(n, l, r, e1, fuel).0, RunTwo(n, l, r, e2, fuel).0, s, Binds(r, Binds(l, locals)))
    ensures RunTwo(n, l, r, e1, fuel).1 == RunTwo(n, l, r, e2, fuel).1
    decreases fuel, n, 1
  {
    Coincide(l, locals, s, e1, e2, fuel);
    var o1, o2 := Run(l, e1, fuel), Run(l, e2, fuel);
    if o1.sig.Done? {
      Coincide(r, Binds(l, locals), s + Binds(l, locals), o1.env, o2.env, o1.fuel);
    }
  }

  lemma {:induction false} CoincideSeq(ns: seq<Node>, locals: set<string>, s: set<string>, e1: Env, e2: Env, fuel: nat)
    requires ReadsSeq(ns, locals) <= s && locals <= s && Agree(e1, e2, s)
    ensures Same(RunSeq(ns, e1, fuel), RunSeq(ns, e2, fuel), s, BindsSeq(ns, locals))
    decreases fuel, ns, 0
  {
    if ns != [] {
      Coincide(ns[0], locals, s, e1, e2, fuel);
      var o1, o2 := Run(ns[0], e1, fuel), Run(ns[0], e2, fuel);
      if o1.sig.Done? {
        var locals1 := Binds(ns[0], locals);
        if |ns| == 1 {
          assert BindsSeq(ns, locals) == BindsSeq([], locals1) == locals1;
        } else {
          CoincideSeq(ns[1..], locals1, s + locals1, o1.env, o2.env, o1.fuel);
        }
      }
    }
  }

  lemma {:induction false} CoincideWrites(ns: seq<Node>, locals: set<string>, s: set<string>, e1: Env, e2: Env,
                                          fuel: nat)
    requires ReadsSeq(ns, locals) <= s && locals <= s && Agree(e1, e2, s)
    ensures Same(RunWrites(ns, e1, fuel), RunWrites(ns, e2, fuel), s, BindsSeq(ns, locals))
    decreases fuel, ns, 0
  {
    if ns != [] {
      Coincide(ns[0], locals, s, e1, e2, fuel);
      var o1, o2 := Run(ns[0], e1, fuel), Run(ns[0], e2, fuel);
      if o1.sig.Done? {
        var locals1 := Binds(ns[0], locals);
        CoincideWrites(ns[1..], locals1, s + locals1, o1.env, o2.env, o1.fuel);
      }
    }
  }

  lemma {:induction false} CoincideIf(n: Node, locals: set<string>, s: set<string>, e1: Env, e2: Env, fuel: nat)
    requires n.If? && Reads(n, locals) <= s && locals <= s && Agree(e1, e2, s)
    ensures Same(Run(n, e1, fuel), Run(n, e2, fuel), s, Binds(n, locals))
    decreases fuel, n, 2
  {
    Coincide(n.cond, locals, s, e1, e2, fuel);
    var o1, o2, locals1 := Run(n.cond, e1, fuel), Run(n.cond, e2, fuel), Binds(n.cond, locals);
    if o1.sig.Done? {
      CoincideSeq(if o1.sig.v != Num(0) then n.thn else n.els, locals1, s + locals1, o1.env, o2.env, o1.fuel);
    }
  }

  lemma {:induction false} ArmReads(arms: seq<Arm>, dflt: seq<Node>, k: i64, locals: set<string>)
    ensures ReadsSeq(ArmFor(arms, dflt, k), locals) <= ReadsArms(arms, locals) + ReadsSeq(dflt, locals)
    decreases |arms|
  {
    if arms != [] && arms[0].key != k {
      ArmReads(arms[1..], dflt, k, locals);
    }
  }

  lemma {:induction false} CoincideMatch(n: Node, locals: set<string>, s: set<string>, e1: Env, e2: Env, fuel: nat)
    requires n.Match? && Reads(n, locals) <= s && locals <= s && Agree(e1, e2, s)
    ensures Same(Run(n, e1, fuel), Run(n, e2, fuel), s, Binds(n, locals))
    decreases fuel, n, 2
  {
    if n.arms == [] {
      CoincideSeq(n.dflt, locals, s, e1, e2, fuel);
    } else {
      var locals1 := Binds(n.e, locals);
      Coincide(n.e, locals, s, e1, e2, fuel);
      var o1, o2 := Run(n.e, e1, fuel), Run(n.e, e2, fuel);
      if o1.sig.Done? && o1.sig.v.Num? {
        ArmIsSmaller(n, n.arms, o1.sig.v.v);
        ArmReads(n.arms, n.dflt, o1.sig.v.v, locals1);
        CoincideSeq(ArmFor(n.arms, n.dflt, o1.sig.v.v), locals1, s + locals1, o1.env, o2.env, o1.fuel);
      }
    }
  }

  lemma SameAfter(o1: Outcome, o2: Outcome, p1: Outcome, p2: Outcome, s: set<string>)
    requires o1.out == o2.out && Same(p1, p2, s, {})
    ensures Same(After(o1, p1), After(o2, p2), s, {})
  {
  }

  lemma {:induction false} CoincideCond(c: Node, locals: set<string>, s: set<string>, e1: Env, e2: Env, fuel: nat)
    requires Reads(c, locals) <= s && locals <= s && Agree(e1, e2, s)
    ensures Same(RunCond(c, e1, fuel), RunCond(c, e2, fuel), s, Binds(c, locals))
    decreases fuel, c, 4
  {
    if c != Absent {
      Coincide(c, locals, s, e1, e2, fuel);
    }
  }

  lemma {:induction false} CoincideLoop(c: Node, b: seq<Node>, locals: set<string>, s: set<string>, e1: Env, e2: Env,
                                        fuel: nat)
    requires Agree(e1, e2, s) && locals <= s
    requires Reads(c, locals) <= s && ReadsSeq(b, Binds(c, locals)) <= s
    ensures Same(RunLoop(c, b, e1, fuel), RunLoop(c, b, e2, fuel), s, Binds(c, locals))
    decreases fuel, Loop(c, b), 2
  {
    if fuel > 0 {
      var locals1 := Binds(c, locals);
      CoincideCond(c, locals, s, e1, e2, fuel - 1);
      var o1, o2 := RunCond(c, e1, fuel - 1), RunCond(c, e2, fuel - 1);
      if o1.sig.Done? && o1.sig.v != Num(0) {
        CoincideLoopBody(c, b, locals, s + locals1, o1.env, o2.env, o1.fuel);
      }
    }
  }

  lemma {:induction false} CoincideLoopBody(c: Node, b: seq<Node>, locals: set<string>, s: set<string>, e1: Env,
                                            e2: Env, fuel: nat)
    requires Agree(e1, e2, s) && locals <= s && Binds(c, locals) <= s
    requires Reads(c, locals) <= s && ReadsSeq(b, Binds(c, locals)) <= s
    ensures Same(RunLoopBody(c, b, e1, fuel), RunLoopBody(c, b, e2, fuel), s, {})
    decreases fuel, Loop(c, b), 3
  {
    CoincideSeq(b, Binds(c, locals), s, e1, e2, fuel);
    var b1, b2 := RunSeq(b, e1, fuel), RunSeq(b, e2, fuel);
    if AfterBody(b1).Again? {
      CoincideLoop(c, b, locals, s, b1.env, b2.env, b1.fuel);
      SameAfter(b1, b2, RunLoop(c, b, b1.env, b1.fuel), RunLoop(c, b, b2.env, b2.fuel), s);
    }
  }

  lemma {:induction false} CoincideForEach(n: Node, locals: set<string>, s: set<string>, e1: Env, e2: Env, fuel: nat)
    requires n.ForEach? && Reads(n, locals) <= s && locals <= s && Agree(e1, e2, s)
    ensures Same(Run(n, e1, fuel), Run(n, e2, fuel), s, Binds(n, locals))
    decreases fuel, n, 2
  {
    Coincide(n.e, locals, s, e1, e2, fuel);
    var o1, o2, locals1 := Run(n.e, e1, fuel), Run(n.e, e2, fuel), Binds(n.e, locals);
    if o1.sig.Done? && o1.sig.v.Lst? {
      CoincideEach(n.name, o1.sig.v.vs, n.body, locals1, s + locals1, o1.env, o2.env, o1.fuel);
    }
  }

  /** One round of a loop over values. */
  lemma {:induction false} CoincideRound(x: string, v: i64, b: seq<Node>, locals: set<string>, s: set<string>,
                                         e1: Env, e2: Env, fuel: nat)
    requires ReadsSeq(b, locals + {x}) <= s && locals <= s && Agree(e1, e2, s)
    ensures Same(RunSeq(b, e1[x := Num(v)], fuel), RunSeq(b, e2[x := Num(v)], fuel), s, {})
    decreases fuel, b, 1
  {
    CoincideSeq(b, locals + {x}, s + {x}, e1[x := Num(v)], e2[x := Num(v)], fuel);
  }

  lemma {:induction false} CoincideEach(x: string, vs: seq<i64>, b: seq<Node>, locals: set<string>, s: set<string>,
                                        e1: Env, e2: Env, fuel: nat)
    requires ReadsSeq(b, locals + {x}) <= s && locals <= s && Agree(e1, e2, s)
    ensures Same(RunEach(x, vs, b, e1, fuel), RunEach(x, vs, b, e2, fuel), s, {})
    decreases fuel, b, |vs| + 2
  {
    if vs != [] {
      CoincideRound(x, vs[0], b, locals, s, e1, e2, fuel);
      var b1, b2 := RunSeq(b, e1[x := Num(vs[0])], fuel), RunSeq(b, e2[x := Num(vs[0])], fuel);
      if AfterBody(b1).Again? {
        CoincideEach(x, vs[1..], b, locals, s, b1.env, b2.env, b1.fuel);
      }
    }
  }

  lemma {:induction false} CoincideRangeFor(n: Node, locals: set<string>, s: set<string>, e1: Env, e2: Env, fuel: nat)
    requires n.RangeFor? && Reads(n, locals) <= s && locals <= s && Agree(e1, e2, s)
    ensures Same(Run(n, e1, fuel), Run(n, e2, fuel), s, Binds(n, locals))
    decreases fuel, n, 2
  {
    var locals2 := Binds(n.end, Binds(n.start, locals));
    CoincideTwo(n, n.start, n.end, locals, s, e1, e2, fuel);
    var o1, o2 := RunTwo(n, n.start, n.end, e1, fuel), RunTwo(n, n.start, n.end, e2, fuel);
    if o1.0.sig.Done? {
      CoincideSteps(n, o1.1, o1.0.sig.v, locals2, s + locals2, o1.0.env, o2.0.env, o1.0.fuel);
    }
  }

  lemma {:induction false} CoincideSteps(n: Node, start: Value, end: Value, locals: set<string>, s: set<string>,
                                         e1: Env, e2: Env, fuel: nat)
    requires n.RangeFor? && locals <= s && Agree(e1, e2, s)
    requires Reads(n.step, locals) <= s && ReadsSeq(n.body, Binds(n.step, locals) + {n.name}) <= s
    ensures Same(RunSteps(n, n.name, start, end, n.step, n.body, e1, fuel),
                 RunSteps(n, n.name, start, end, n.step, n.body, e2, fuel), s, Binds(n.step, locals))
    decreases fuel, n, 1
  {
    var locals1 := Binds(n.step, locals);
    Coincide(n.step, locals, s, e1, e2, fuel);
    var o1, o2 := Run(n.step, e1, fuel), Run(n.step, e2, fuel);
    if o1.sig.Done? && start.Num? && end.Num? && o1.sig.v.Num? {
      CoincideRange(n.name, start.v, end.v, o1.sig.v.v, n.body, locals1, s + locals1, o1.env, o2.env, o1.fuel);
    }
  }

  lemma {:induction false} CoincideRange(x: string, i: i64, end: i64, step: i64, b: seq<Node>, locals: set<string>,
                                         s: set<string>, e1: Env, e2: Env, fuel: nat)
    requires ReadsSeq(b, locals + {x}) <= s && locals <= s && Agree(e1, e2, s)
    ensures Same(RunRange(x, i, end, step, b, e1, fuel), RunRange(x, i, end, step, b, e2, fuel), s, {})
    decreases fuel, b, 2
  {
    if fuel > 0 && step != 0 && (if step > 0 then i <= end else i >= end) {
      CoincideRound(x, i, b, locals, s, e1, e2, fuel - 1);
      var b1, b2 := RunSeq(b, e1[x := Num(i)], fuel - 1), RunSeq(b, e2[x := Num(i)], fuel - 1);
      if AfterBody(b1).Again? {
        CoincideRange(x, Add(i, step), end, step, b, locals, s, b1.env, b2.env, b1.fuel);
      }
    }
  }

  // ----- the captures -----

  /** A variable of the enclosing function: the kinds that are never captured are those whose
      slot is dynamic, holds a list, or has a type that cannot be copied as one word. */
  datatype Slot = Slot(value: Value, copyable: bool, dynamic: bool, listSlot: bool)

  type Slots = map<string, Slot>

  datatype Picked = Picked(name: string, value: Value, mutableSlot: bool)

  /** Chosen from the mutable slots first; a named value only if no slot has its name. */
  predicate Capturable(x: string, mut: Slots, named: Slots) {
    if x in mut then mut[x].copyable && !mut[x].dynamic && !mut[x].listSlot
    else x in named && named[x].copyable
  }

  function SlotOf(x: string, mut: Slots, named: Slots): Slot
    requires x in mut || x in named
  {
    if x in mut then mut[x] else named[x]
  }

  function Names(caps: seq<Picked>): set<string> {
    set i | 0 <= i < |caps| :: caps[i].name
  }

  predicate NoName(caps: seq<Picked>, x: string) {
    forall i :: 0 <= i < |caps| ==> caps[i].name != x
  }

  predicate Distinct(caps: seq<Picked>) {
    forall i :: 0 <= i < |caps| ==> NoName(caps[..i], caps[i].name)
  }

  /** Each capture carries the value of its slot and says whether the slot is a mutable one. */
  predicate Copies(caps: seq<Picked>, mut: Slots, named: Slots) {
    forall i :: 0 <= i < |caps| ==>
      var x := caps[i].name;
      (x in mut || x in named) && caps[i].value == SlotOf(x, mut, named).value && caps[i].mutableSlot == (x in mut)
  }

  /** One more capture: a slot is picked if its name was collected. */
  method Pick(caps: seq<Picked>, x: string, refs: set<string>, mut: Slots, named: Slots) returns (caps': seq<Picked>)
    requires Distinct(caps) && Copies(caps, mut, named) && x !in Names(caps)
    ensures Distinct(caps') && Copies(caps', mut, named)
    ensures Names(caps') == Names(caps) + (if x in refs && Capturable(x, mut, named) then {x} else {})
  {
    caps' := caps;
    if x in refs && Capturable(x, mut, named) {
      caps' := caps + [Picked(x, SlotOf(x, mut, named).value, x in mut)];
      assert caps'[|caps|].name == x;
      assert forall i :: 0 <= i < |caps| ==> caps'[i] == caps[i] && caps'[..i] == caps[..i];
      assert forall i :: 0 <= i < |caps| ==> caps[i].name in Names(caps) && caps'[i].name in Names(caps');
    }
  }

  /** Two loops over unordered maps, whose keys come in some order and without repetition: the
      mutable slots first, then the named values that no mutable slot hides. */
  method SelectCaptures(refs: set<string>, mut: Slots, mutKeys: seq<string>, named: Slots, namedKeys: seq<string>)
      returns (caps: seq<Picked>)
    requires (set x | x in mutKeys) == mut.Keys && (set x | x in namedKeys) == named.Keys
    requires forall i :: 0 <= i < |mutKeys| ==> mutKeys[i] !in mutKeys[..i]
    requires forall i :: 0 <= i < |namedKeys| ==> namedKeys[i] !in namedKeys[..i]
    ensures Distinct(caps) && Copies(caps, mut, named)
    ensures Names(caps) == set x | x in refs && Capturable(x, mut, named)
    ensures forall x :: x in Names(caps) <==>
              x in refs && (if x in mut then mut[x].copyable && !mut[x].dynamic && !mut[x].listSlot
                            else x in named && named[x].copyable)
    ensures forall i :: 0 <= i < |caps| ==>
              var x := caps[i].name;
              if x in mut then caps[i] == Picked(x, mut[x].value, true)
              else x in named && caps[i] == Picked(x, named[x].value, false)
  {
    caps := [];
    for k := 0 to |mutKeys|
      invariant Distinct(caps) && Copies(caps, mut, named)
      invariant Names(caps) == set x | x in mutKeys[..k] && x in refs && Capturable(x, mut, named)
    {
      caps := Pick(caps, mutKeys[k], refs, mut, named);
    }
    for k := 0 to |namedKeys|
      invariant Distinct(caps) && Copies(caps, mut, named)
      invariant Names(caps)
                == set x | x in mut.Keys + (set y | y in namedKeys[..k]) && x in refs && Capturable(x, mut, named)
    {
      if namedKeys[k] !in mut {
        caps := Pick(caps, namedKeys[k], refs, mut, named);
      }
    }
    CapturesInWords(caps, refs, mut, named);
  }

  lemma CapturesInWords(caps: seq<Picked>, refs: set<string>, mut: Slots, named: Slots)
    requires Copies(caps, mut, named) && Names(caps) == set x | x in refs && Capturable(x, mut, named)
    ensures forall x :: x in Names(caps) <==>
              x in refs && (if x in mut then mut[x].copyable && !mut[x].dynamic && !mut[x].listSlot
                            else x in named && named[x].copyable)
    ensures forall i :: 0 <= i < |caps| ==>
              var x := caps[i].name;
              if x in mut then caps[i] == Picked(x, mut[x].value, true)
              else x in named && caps[i] == Picked(x, named[x].value, false)
  {
  }

  /** The environment of the enclosing function, and the one the task starts with. */
  function FullEnv(mut: Slots, named: Slots): Env {
    map x | x in mut.Keys + named.Keys :: SlotOf(x, mut, named).value
  }

  function TaskEnv(refs: set<string>, mut: Slots, named: Slots): Env {
    map x | x in refs && Capturable(x, mut, named) :: SlotOf(x, mut, named).value
  }

  // ----- the task against its enclosing scope -----

  /** The body gives the same result and output in the task as in the enclosing function. */
  ghost predicate RunsAlike(body: seq<Node>, mut: Slots, named: Slots, fuel: nat) {
    var inner := RunSeq(body, TaskEnv(RefsSeq(body, {}), mut, named), fuel);
    var outer := RunSeq(body, FullEnv(mut, named), fuel);
    inner.sig == outer.sig && inner.out == outer.out && inner.fuel == outer.fuel
  }

  /** It does, for every body, if each outer variable it reads is collected and can be captured
      or holds 0 anyway. */
  lemma TaskRunsAlike(body: seq<Node>, mut: Slots, named: Slots, fuel: nat)
    requires forall x :: x in ReadsSeq(body, {}) && (x in mut || x in named) ==>
               (x in RefsSeq(body, {}) && Capturable(x, mut, named)) || SlotOf(x, mut, named).value == Num(0)
    ensures RunsAlike(body, mut, named, fuel)
  {
    CoincideSeq(body, {}, ReadsSeq(body, {}), TaskEnv(RefsSeq(body, {}), mut, named), FullEnv(mut, named), fuel);
  }

  /** Each of these variables of the enclosing function can be captured or holds 0. */
  ghost predicate NothingLost(xs: set<string>, mut: Slots, named: Slots) {
    forall x :: x in xs && (x in mut || x in named) ==>
      Capturable(x, mut, named) || SlotOf(x, mut, named).value == Num(0)
  }

  /** For the bodies that read no more than some variables, all of them collected, whether tasks
      run alike depends on these variables of the enclosing function alone, and exactly on this. */
  lemma TasksRunAlikeExactly(xs: set<string>, mut: Slots, named: Slots)
    ensures NothingLost(xs, mut, named) <==>
            forall body, fuel :: ReadsSeq(body, {}) <= RefsSeq(body, {}) * xs ==> RunsAlike(body, mut, named, fuel)
  {
    if NothingLost(xs, mut, named) {
      forall body, fuel | ReadsSeq(body, {}) <= RefsSeq(body, {}) * xs ensures RunsAlike(body, mut, named, fuel) {
        TaskRunsAlike(body, mut, named, fuel);
      }
    } else {
      var x :| x in xs && (x in mut || x in named) && !Capturable(x, mut, named)
               && SlotOf(x, mut, named).value != Num(0);
      var body := [Name(x)];
      assert ReadsSeq(body, {}) <= RefsSeq(body, {}) * xs;
      assert RunSeq(body, FullEnv(mut, named), 0).sig == Done(SlotOf(x, mut, named).value);
      assert RunSeq(body, TaskEnv(RefsSeq(body, {}), mut, named), 0).sig == Done(Num(0));
      assert !RunsAlike(body, mut, named, 0);
    }
  }

  // ----- when the walk collects all that is read -----

  /** No fallback, no initializer, no match without arms: the walk and the run visit the same. */
  predicate Walked(n: Node)
    decreases n, 0
  {
    match n
    case VarDecl(_, init) => init == Absent
    case Binary(_, l, r) => Walked(l) && Walked(r)
    case Return(e) => Walked(e)
    case Block(b) => WalkedSeq(b)
    case Bind(_, e) => Walked(e)
    case Loop(c, b) => Walked(c) && WalkedSeq(b)
    case ForEach(_, e, b) => Walked(e) && WalkedSeq(b)
    case RangeFor(_, e1, e2, e3, b) => Walked(e1) && Walked(e2) && Walked(e3) && WalkedSeq(b)
    case If(c, t, f) => Walked(c) && WalkedSeq(t) && WalkedSeq(f)
    case Match(e, arms, d) => arms != [] && Walked(e) && WalkedArms(arms) && WalkedSeq(d)
    case FlowBind(e, _) => Walked(e)
    case Write(es) => WalkedSeq(es)
    case Fallback(_, _) => false
    case _ => true
  }

  predicate WalkedSeq(ns: seq<Node>)
    decreases ns, 0
  {
    ns == [] || (Walked(ns[0]) && WalkedSeq(ns[1..]))
  }

  predicate WalkedArms(arms: seq<Arm>)
    decreases arms, 0
  {
    arms == [] || (WalkedSeq(arms[0].body) && WalkedArms(arms[1..]))
  }

  lemma {:induction false} WalkCollects(n: Node, walked: set<string>, locals: set<string>)
    requires Walked(n) && walked <= locals
    ensures Reads(n, locals) <= Refs(n, walked) && Bound(n, walked) <= Binds(n, locals)
    decreases n, 0
  {
    match n
    case Binary(_, l, r) =>
      WalkCollects(l, walked, locals);
      WalkCollects(r, Bound(l, walked), Binds(l, locals));
    case Return(e) => WalkCollects(e, walked, locals);
    case Block(b) => WalkCollectsSeq(b, walked, locals);
    case Bind(_, e) => WalkCollects(e, walked, locals);
    case FlowBind(e, _) => WalkCollects(e, walked, locals);
    case Loop(c, b) =>
      WalkCollects(c, walked, locals);
      WalkCollectsSeq(b, Bound(c, walked), Binds(c, locals));
    case ForEach(x, e, b) =>
      WalkCollects(e, walked, locals);
      WalkCollectsSeq(b, Bound(e, walked) + {x}, Binds(e, locals) + {x});
    case RangeFor(x, e1, e2, e3, b) =>
      WalkCollects(e1, walked, locals);
      var w1, l1 := Bound(e1, walked), Binds(e1, locals);
      WalkCollects(e2, w1, l1);
      var w2, l2 := Bound(e2, w1), Binds(e2, l1);
      WalkCollects(e3, w2, l2);
      WalkCollectsSeq(b, Bound(e3, w2) + {x}, Binds(e3, l2) + {x});
    case If(c, t, f) =>
      WalkCollects(c, walked, locals);
      WalkCollectsSeq(t, Bound(c, walked), Binds(c, locals));
      WalkCollectsSeq(f, Bound(c, walked), Binds(c, locals));
    case Match(e, arms, d) =>
      WalkCollects(e, walked, locals);
      WalkCollectsArms(arms, Bound(e, walked), Binds(e, locals));
      WalkCollectsSeq(d, Bound(e, walked), Binds(e, locals));
    case Write(es) => WalkCollectsSeq(es, walked, locals);
    case _ =>
  }

  lemma {:induction false} WalkCollectsSeq(ns: seq<Node>, walked: set<string>, locals: set<string>)
    requires WalkedSeq(ns) && walked <= locals
    ensures ReadsSeq(ns, locals) <= RefsSeq(ns, walked) && BoundSeq(ns, walked) <= BindsSeq(ns, locals)
    decreases ns, 0
  {
    if ns != [] {
      WalkCollects(ns[0], walked, locals);
      WalkCollectsSeq(ns[1..], Bound(ns[0], walked), Binds(ns[0], locals));
    }
  }

  lemma {:induction false} WalkCollectsArms(arms: seq<Arm>, walked: set<string>, locals: set<string>)
    requires WalkedArms(arms) && walked <= locals
    ensures ReadsArms(arms, locals) <= RefsArms(arms, walked)
    decreases arms, 0
  {
    if arms != [] {
      WalkCollectsSeq(arms[0].body, walked, locals);
      WalkCollectsArms(arms[1..], walked, locals);
    }
  }

  /** The names of variables and flow targets, which the walk collects although no run reads
      them. */
  predicate Targets(n: Node, x: string)
    decreases n, 0
  {
    match n
    case VarDecl(y, _) => y == x
    case Binary(_, l, r) => Targets(l, x) || Targets(r, x)
    case Return(e) => Targets(e, x)
    case Block(b) => TargetsSeq(b, x)
    case Bind(_, e) => Targets(e, x)
    case FlowBind(e, y) => y == x || Targets(e, x)
    case Loop(c, b) => Targets(c, x) || TargetsSeq(b, x)
    case ForEach(_, e, b) => Targets(e, x) || TargetsSeq(b, x)
    case RangeFor(_, e1, e2, e3, b) => Targets(e1, x) || Targets(e2, x) || Targets(e3, x) || TargetsSeq(b, x)
    case If(c, t, f) => Targets(c, x) || TargetsSeq(t, x) || TargetsSeq(f, x)
    case Match(e, arms, d) => Targets(e, x) || TargetsArms(arms, x) || TargetsSeq(d, x)
    case Write(es) => TargetsSeq(es, x)
    case _ => false
  }

  predicate TargetsSeq(ns: seq<Node>, x: string)
    decreases ns, 0
  {
    ns != [] && (Targets(ns[0], x) || TargetsSeq(ns[1..], x))
  }

  predicate TargetsArms(arms: seq<Arm>, x: string)
    decreases arms, 0
  {
    arms != [] && (TargetsSeq(arms[0].body, x) || TargetsArms(arms[1..], x))
  }

  /** Any other name is collected exactly if a run may read it, and bound for the walk exactly if
      it is bound for the run. */
  lemma {:induction false} WalkCollectsOnlyReads(n: Node, x: string, walked: set<string>, locals: set<string>)
    requires Walked(n) && !Targets(n, x) && (x in walked <==> x in locals)
    ensures x in Refs(n, walked) <==> x in Reads(n, locals)
    ensures x in Bound(n, walked) <==> x in Binds(n, locals)
    decreases n, 0
  {
    match n
    case Binary(_, l, r) =>
      WalkCollectsOnlyReads(l, x, walked, locals);
      WalkCollectsOnlyReads(r, x, Bound(l, walked), Binds(l, locals));
    case Return(e) => WalkCollectsOnlyReads(e, x, walked, locals);
    case Block(b) => SeqCollectsOnlyReads(b, x, walked, locals);
    case Bind(_, e) => WalkCollectsOnlyReads(e, x, walked, locals);
    case FlowBind(e, _) => WalkCollectsOnlyReads(e, x, walked, locals);
    case Loop(c, b) =>
      WalkCollectsOnlyReads(c, x, walked, locals);
      SeqCollectsOnlyReads(b, x, Bound(c, walked), Binds(c, locals));
    case ForEach(y, e, b) =>
      WalkCollectsOnlyReads(e, x, walked, locals);
      SeqCollectsOnlyReads(b, x, Bound(e, walked) + {y}, Binds(e, locals) + {y});
    case RangeFor(y, e1, e2, e3, b) =>
      WalkCollectsOnlyReads(e1, x, walked, locals);
      var w1, l1 := Bound(e1, walked), Binds(e1, locals);
      WalkCollectsOnlyReads(e2, x, w1, l1);
      var w2, l2 := Bound(e2, w1), Binds(e2, l1);
      WalkCollectsOnlyReads(e3, x, w2, l2);
      SeqCollectsOnlyReads(b, x, Bound(e3, w2) + {y}, Binds(e3, l2) + {y});
    case If(c, t, f) =>
      WalkCollectsOnlyReads(c, x, walked, locals);
      SeqCollectsOnlyReads(t, x, Bound(c, walked), Binds(c, locals));
      SeqCollectsOnlyReads(f, x, Bound(c, walked), Binds(c, locals));
    case Match(e, arms, d) =>
      WalkCollectsOnlyReads(e, x, walked, locals);
      ArmsCollectOnlyReads(arms, x, Bound(e, walked), Binds(e, locals));
      SeqCollectsOnlyReads(d, x, Bound(e, walked), Binds(e, locals));
    case Write(es) => SeqCollectsOnlyReads(es, x, walked, locals);
    case _ =>
  }

  lemma {:induction false} SeqCollectsOnlyReads(ns: seq<Node>, x: string, walked: set<string>, locals: set<string>)
    requires WalkedSeq(ns) && !TargetsSeq(ns, x) && (x in walked <==> x in locals)
    ensures x in RefsSeq(ns, walked) <==> x in ReadsSeq(ns, locals)
    ensures x in BoundSeq(ns, walked) <==> x in BindsSeq(ns, locals)
    decreases ns, 0
  {
    if ns != [] {
      WalkCollectsOnlyReads(ns[0], x, walked, locals);
      SeqCollectsOnlyReads(ns[1..], x, Bound(ns[0], walked), Binds(ns[0], locals));
    }
  }

  lemma {:induction false} ArmsCollectOnlyReads(arms: seq<Arm>, x: string, walked: set<string>, locals: set<string>)
    requires WalkedArms(arms) && !TargetsArms(arms, x) && (x in walked <==> x in locals)
    ensures x in RefsArms(arms, walked) <==> x in ReadsArms(arms, locals)
    decreases arms, 0
  {
    if arms != [] {
      SeqCollectsOnlyReads(arms[0].body, x, walked, locals);
      ArmsCollectOnlyReads(arms[1..], x, walked, locals);
    }
  }

  // ----- what the walk misses -----

  /** A body whose result depends on a name that is not collected runs differently in the task,
      although the name could have been captured. */
  lemma HiddenNameIsLost(body: seq<Node>, x: string)
    requires RefsSeq(body, {}) == {} && RunSeq(body, map[x := Num(1)], 0).sig != RunSeq(body, map[], 0).sig
    ensures var mut := map[x := Slot(Num(1), true, false, false)];
            Capturable(x, mut, map[]) && !RunsAlike(body, mut, map[], 0)
  {
    var mut := map[x := Slot(Num(1), true, false, false)];
    assert FullEnv(mut, map[]) == map[x := Num(1)] && TaskEnv({}, mut, map[]) == map[];
  }

  /** Fallback operands are not walked. */
  lemma FallbackIsNotCollected(x: string)
    ensures var body, mut := [Fallback(Name(x), Const(0))], map[x := Slot(Num(1), true, false, false)];
            ReadsSeq(body, {}) == {x} && Capturable(x, mut, map[]) && !RunsAlike(body, mut, map[], 0)
  {
    var n := Fallback(Name(x), Const(0));
    forall e: Env ensures RunTwo(n, n.primary, n.alternate, e, 0) == (Outcome(Done(Num(0)), e, [], 0), Get(e, x)) {
      assert Run(n.primary, e, 0) == Outcome(Done(Get(e, x)), e, [], 0);
      assert Run(n.alternate, e, 0) == Outcome(Done(Num(0)), e, [], 0);
      assert forall out: seq<Value> :: [] + out == out;
    }
    assert Run(n, map[x := Num(1)], 0).sig == Done(Num(1));
    assert Run(n, map[], 0).sig == Done(Num(0));
    assert Binds(Name(x), {}) == {} && Reads(n.primary, {}) == {x} && Reads(n.alternate, {}) == {};
    assert Reads(n, {}) == {x} && ReadsSeq([n], {}) == {x};
    HiddenNameIsLost([n], x);
  }

  /** A node that does nothing leaves x to be read from outside. */
  lemma SecondNodeReads(n: Node, x: string, e: Env)
    requires Run(n, e, 0) == Outcome(Done(Num(0)), e, [], 0)
    ensures RunSeq([n, Name(x)], e, 0).sig == Done(Get(e, x))
  {
    assert [n, Name(x)][1..] == [Name(x)];
    assert Run(Name(x), e, 0) == Outcome(Done(Get(e, x)), e, [], 0);
    assert RunSeq([Name(x)], e, 0) == Outcome(Done(Get(e, x)), e, [], 0);
  }

  /** The walk takes over what an initializer would bind, but an initializer is never run. */
  lemma InitializerHidesName(x: string, y: string)
    ensures var body, mut := [VarDecl(y, Bind(x, Const(1))), Name(x)], map[x := Slot(Num(1), true, false, false)];
            RefsSeq(body, {}) == {} && Capturable(x, mut, map[]) && !RunsAlike(body, mut, map[], 0)
  {
    var n := VarDecl(y, Bind(x, Const(1)));
    assert Refs(Const(1), {}) == Refs(n.init, {}) == {} && Bound(Const(1), {}) == {} && Bound(n.init, {}) == {x};
    NothingCollectedAfter(n, x);
    SecondNodeReads(n, x, map[x := Num(1)]);
    SecondNodeReads(n, x, map[]);
    HiddenNameIsLost([n, Name(x)], x);
  }

  lemma NothingCollectedAfter(n: Node, x: string)
    requires Refs(n, {}) == {} && Bound(n, {}) == {x}
    ensures RefsSeq([n, Name(x)], {}) == {}
  {
    assert [n, Name(x)][1..] == [Name(x)] && Refs(Name(x), {x}) == {};
    assert RefsSeq([Name(x)], {x}) == {};
  }

  /** So it does with the scrutinee of a match, which is not run either if there are no arms. */
  lemma ScrutineeHidesName(x: string)
    ensures var body, mut := [Match(Bind(x, Const(1)), [], []), Name(x)], map[x := Slot(Num(1), true, false, false)];
            RefsSeq(body, {}) == {} && Capturable(x, mut, map[]) && !RunsAlike(body, mut, map[], 0)
  {
    var n := Match(Bind(x, Const(1)), [], []);
    assert Refs(Const(1), {}) == Refs(n.e, {}) == {} && Bound(Const(1), {}) == {} && Bound(n.e, {}) == {x};
    NothingCollectedAfter(n, x);
    SecondNodeReads(n, x, map[x := Num(1)]);
    SecondNodeReads(n, x, map[]);
    HiddenNameIsLost([n, Name(x)], x);
  }

  /** A collected name with a list slot is not captured: the task reads 0 instead of the list. */
  lemma ListSlotIsLost(x: string, vs: seq<i64>)
    ensures var body, mut := [Name(x)], map[x := Slot(Lst(vs), true, false, true)];
            && x in RefsSeq(body, {})
            && RunSeq(body, TaskEnv(RefsSeq(body, {}), mut, map[]), 0).sig == Done(Num(0))
            && RunSeq(body, FullEnv(mut, map[]), 0).sig == Done(Lst(vs))
  {
  }
}
