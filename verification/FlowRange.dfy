/** The values a range loop visits. The header tests a hidden position and the step block adds
    to it with a wrapping add; as long as the position after the last value still fits, the
    loop visits a fixed arithmetic progression, whatever its body does. */
module FlowRange {
  import opened Int64
  import opened Residues
  import opened Undef
  import opened Flow

  /** How many values lie from start to the inclusive end: none when the sign does not fit. */
  function RangeCount(start: int, end: int, step: int): nat {
    if step > 0 && start <= end then (end - start) / step + 1
    else if step < 0 && start >= end then (start - end) / (0 - step) + 1
    else 0
  }

  /** The position after the last value. */
  function Beyond(start: int, end: int, step: int): int {
    start + RangeCount(start, end, step) * step
  }

  function RangeValue(start: i64, end: i64, step: i64, k: nat): (v: i64)
    requires k < RangeCount(start, end, step)
    ensures v == start + k * step
  {
    ValueFits(start, end, step, k);
    start + k * step
  }

  function RangeValues(start: i64, end: i64, step: i64): (vs: seq<i64>)
    ensures |vs| == RangeCount(start, end, step)
    ensures forall k: nat :: k < |vs| ==> vs[k] == RangeValue(start, end, step, k)
  {
    seq(RangeCount(start, end, step), k requires 0 <= k < RangeCount(start, end, step) =>
      RangeValue(start, end, step, k))
  }

  /** Upwards they are exactly the words from start to the inclusive end in strides of step. */
  lemma UpwardValues(start: i64, end: i64, step: i64, v: i64)
    requires step > 0
    ensures v in RangeValues(start, end, step) <==> start <= v <= end && (v - start) % step == 0
  {
    var vs := RangeValues(start, end, step);
    if v in vs {
      var k: nat :| k < |vs| && vs[k] == v;
      assert v == RangeValue(start, end, step, k);
      ValueFits(start, end, step, k);
      ModUnique(v - start, k, 0, step);
    }
    if start <= v <= end && (v - start) % step == 0 {
      StrideReaches(v - start, end - start, step);
      assert vs[(v - start) / step] == v;
    }
  }

  /** Downwards the same, and with a step of 0 there are none. */
  lemma DownwardValues(start: i64, end: i64, step: i64, v: i64)
    requires step <= 0
    ensures v in RangeValues(start, end, step) <==> step < 0 && end <= v <= start && (start - v) % (0 - step) == 0
  {
    if v in RangeValues(start, end, step) {
      var k: nat :| k < RangeCount(start, end, step) && RangeValue(start, end, step, k) == v;
      ValueFits(start, end, step, k);
      Opposite(k, step);
      ModUnique(start - v, k, 0, 0 - step);
    }
    if step < 0 && end <= v <= start && (start - v) % (0 - step) == 0 {
      var k := (start - v) / (0 - step);
      StrideReaches(start - v, start - end, 0 - step);
      Opposite(k, step);
      assert RangeValues(start, end, step)[k] == v;
    }
  }

  lemma Opposite(k: int, step: int)
    ensures k * step == -(k * (0 - step))
  {
  }

  lemma StrideReaches(a: nat, b: nat, m: int)
    requires m > 0 && a <= b && a % m == 0
    ensures 0 <= a / m <= b / m && a / m * m == a
  {
    var q := b / m;
    assert b == q * m + b % m && a == a / m * m;
    if a / m > q {
      MulMonotone(m, q + 1, a / m);
    }
  }

  lemma MultipleInside(a: nat, m: int, k: nat)
    requires m > 0 && k <= a / m
    ensures 0 <= m * k <= a
  {
    assert a == m * (a / m) + a % m;
    MulMonotone(m, k, a / m);
    MulMonotone(m, 0, k);
  }

  lemma ValueFits(start: i64, end: i64, step: i64, k: nat)
    requires k < RangeCount(start, end, step)
    ensures step > 0 ==> start <= start + k * step <= end
    ensures step < 0 ==> end <= start + k * step <= start
    ensures Fits(start + k * step)
  {
    if step > 0 {
      MultipleInside(end - start, step, k);
    } else {
      MultipleInside(start - end, 0 - step, k);
      assert k * step == -((0 - step) * k);
    }
  }

  lemma GoesExactlyWhenCounted(start: i64, end: i64, step: i64)
    ensures RangeGoes(start, end, step) <==> RangeCount(start, end, step) > 0
  {
  }

  lemma QuotientStep(a: int, m: int)
    requires m > 0
    ensures (a - m) / m == a / m - 1
  {
    ModUnique(a - m, a / m - 1, a % m, m);
  }

  /** One step on, one value fewer. */
  lemma CountAfterStep(start: i64, end: i64, step: i64)
    requires RangeGoes(start, end, step) && Fits(start + step)
    ensures RangeCount(start + step, end, step) == RangeCount(start, end, step) - 1
    ensures Beyond(start + step, end, step) == Beyond(start, end, step)
  {
    var m: int := if step > 0 then step else 0 - step;
    var a := if step > 0 then end - start else start - end;
    QuotientStep(a, m);
    if a < m {
      ModUnique(a, 0, a, m);
    } else {
      assert (a - m) / m >= 0;
    }
    var n := RangeCount(start, end, step);
    assert (n - 1) * step == n * step - step;
  }

  lemma NextFits(start: i64, end: i64, step: i64)
    requires RangeGoes(start, end, step) && Fits(Beyond(start, end, step))
    ensures Fits(start + step)
  {
    var n := RangeCount(start, end, step);
    if n > 1 {
      ValueFits(start, end, step, 1);
    } else {
      assert n == 1 && n * step == step;
    }
  }

  lemma ValuesUnfold(start: i64, end: i64, step: i64)
    requires RangeGoes(start, end, step) && Fits(start + step)
    ensures RangeValues(start, end, step) == [start] + RangeValues(start + step, end, step)
  {
    CountAfterStep(start, end, step);
    var vs, ws := RangeValues(start, end, step), RangeValues(start + step, end, step);
    forall k: nat | k < |vs| ensures vs[k] == ([start] + ws)[k] {
      if k > 0 {
        assert vs[k] == RangeValue(start, end, step, k);
        assert ws[k - 1] == RangeValue(start + step, end, step, k - 1);
        assert start + step + (k - 1) * step == start + k * step;
      }
    }
  }

  /** Running the body once for each value of a list fixed beforehand. */
  function ExecEach(x: string, vs: seq<i64>, b: seq<Stmt>, st: Store, loops: nat, fuel: nat): Run
    requires st.Valid()
    decreases fuel
  {
    if fuel == 0 then Run(OutOfFuel, st, 0)
    else if vs == [] then Run(Normal, st, fuel - 1)
    else
      var r := ExecSeq(b, SetVar(st, x, vs[0]), loops + 1, fuel - 1);
      match AfterBody(r)
      case Again(st') => ExecEach(x, vs[1..], b, st', loops, r.fuel)
      case Leave(sig) => Run(sig, r.st, r.fuel)
  }

  /** The range loop runs its body for exactly the progression, for every body, even one that
      assigns the loop variable. */
  lemma {:induction false} RangeVisitsProgression(x: string, start: i64, end: i64, step: i64, b: seq<Stmt>,
                                                  st: Store, loops: nat, fuel: nat)
    requires st.Valid() && Fits(Beyond(start, end, step))
    ensures ExecRange(x, start, end, step, b, st, loops, fuel)
         == ExecEach(x, RangeValues(start, end, step), b, st, loops, fuel)
    decreases fuel
  {
    GoesExactlyWhenCounted(start, end, step);
    if fuel > 0 && RangeGoes(start, end, step) {
      NextFits(start, end, step);
      WrapFits(start + step);
      ValuesUnfold(start, end, step);
      CountAfterStep(start, end, step);
      var r := ExecSeq(b, SetVar(st, x, start), loops + 1, fuel - 1);
      if AfterBody(r).Again? {
        RangeVisitsProgression(x, start + step, end, step, b, AfterBody(r).st, loops, r.fuel);
      }
      assert RangeValues(start, end, step)[1..] == RangeValues(start + step, end, step);
    }
  }

  lemma BeyondIsOut(start: i64, end: i64, step: i64)
    requires RangeCount(start, end, step) > 0
    ensures step > 0 ==> end < Beyond(start, end, step) <= end + step
    ensures step < 0 ==> end + step <= Beyond(start, end, step) < end
  {
    var n := RangeCount(start, end, step);
    if step > 0 {
      assert end - start == (n - 1) * step + (end - start) % step;
      assert n * step == (n - 1) * step + step;
    } else {
      var m: int := 0 - step;
      assert start - end == (n - 1) * m + (start - end) % m;
      assert n * step == -((n - 1) * m) - m;
    }
  }

  /** The condition is exact: after the last value the header stops if and only if the next
      position fits; otherwise it wraps to a position the header accepts. */
  lemma StopsAfterLastExactly(start: i64, end: i64, step: i64)
    requires RangeCount(start, end, step) > 0
    ensures var last := RangeValue(start, end, step, RangeCount(start, end, step) - 1);
            !RangeGoes(Add(last, step), end, step) <==> Fits(Beyond(start, end, step))
  {
    var n := RangeCount(start, end, step);
    assert start + (n - 1) * step + step == start + n * step;
    BeyondIsOut(start, end, step);
  }

  /** The store after a round with an empty body. */
  function AfterRound(x: string, v: i64, st: Store): (st': Store)
    requires st.Valid()
    ensures st'.Valid()
  {
    AfterBody(Run(Normal, SetVar(st, x, v), 0)).st
  }

  lemma EmptyRound(x: string, i: i64, end: i64, step: i64, vs: seq<i64>, st: Store, loops: nat, fuel: nat)
    requires st.Valid() && fuel > 0
    ensures RangeGoes(i, end, step) ==>
              ExecRange(x, i, end, step, [], st, loops, fuel)
              == ExecRange(x, Add(i, step), end, step, [], AfterRound(x, i, st), loops, fuel - 1)
    ensures vs != [] ==>
              ExecEach(x, vs, [], st, loops, fuel)
              == ExecEach(x, vs[1..], [], AfterRound(x, vs[0], st), loops, fuel - 1)
  {
    assert forall v :: ExecSeq([], SetVar(st, x, v), loops + 1, fuel - 1) == Run(Normal, SetVar(st, x, v), fuel - 1);
  }

  /** With a round more than there are values, an empty body is run once for each of them and the
      loop is over. */
  lemma {:induction false} EachIsOver(x: string, vs: seq<i64>, st: Store, loops: nat)
    requires st.Valid()
    ensures ExecEach(x, vs, [], st, loops, |vs| + 1).sig == Normal
  {
    if vs != [] {
      EmptyRound(x, 0, 0, 0, vs, st, loops, |vs| + 1);
      EachIsOver(x, vs[1..], AfterRound(x, vs[0], st), loops);
    }
  }

  /** A position that wrapped lets the loop go on. */
  lemma {:induction false} WrappedLoopGoesOn(x: string, start: i64, end: i64, step: i64, st: Store, loops: nat)
    requires st.Valid() && !Fits(Beyond(start, end, step))
    ensures ExecRange(x, start, end, step, [], st, loops, RangeCount(start, end, step) + 1).sig == OutOfFuel
    decreases RangeCount(start, end, step)
  {
    var n := RangeCount(start, end, step);
    GoesExactlyWhenCounted(start, end, step);
    EmptyRound(x, start, end, step, [], st, loops, n + 1);
    if n == 1 {
      StopsAfterLastExactly(start, end, step);
      EmptyRound(x, Add(start, step), end, step, [], AfterRound(x, start, st), loops, 1);
    } else {
      SecondFits(start, end, step);
      CountAfterStep(start, end, step);
      WrappedLoopGoesOn(x, start + step, end, step, AfterRound(x, start, st), loops);
    }
  }

  lemma SecondFits(start: i64, end: i64, step: i64)
    requires RangeCount(start, end, step) > 1
    ensures Fits(start + step) && Add(start, step) == start + step
  {
    ValueFits(start, end, step, 1);
    WrapFits(start + step);
  }

  /** The loop runs its body for exactly the progression, for all bodies, stores and budgets, if
      and only if the position after the last value fits. */
  lemma RangeVisitsProgressionExactly(x: string, start: i64, end: i64, step: i64)
    ensures Fits(Beyond(start, end, step)) <==>
            forall b: seq<Stmt>, st: Store, loops: nat, fuel: nat :: st.Valid() ==>
              ExecRange(x, start, end, step, b, st, loops, fuel)
              == ExecEach(x, RangeValues(start, end, step), b, st, loops, fuel)
  {
    if Fits(Beyond(start, end, step)) {
      forall b: seq<Stmt>, st: Store, loops: nat, fuel: nat | st.Valid()
        ensures ExecRange(x, start, end, step, b, st, loops, fuel)
             == ExecEach(x, RangeValues(start, end, step), b, st, loops, fuel)
      {
        RangeVisitsProgression(x, start, end, step, b, st, loops, fuel);
      }
    } else {
      var st, fuel := Store(map[], map[]), RangeCount(start, end, step) + 1;
      EachIsOver(x, RangeValues(start, end, step), st, 0);
      WrappedLoopGoesOn(x, start, end, step, st, 0);
      assert ExecRange(x, start, end, step, [], st, 0, fuel)
          != ExecEach(x, RangeValues(start, end, step), [], st, 0, fuel);
    }
  }

  /** The emitted loop around an empty body, recording the positions. */
  method VisitRange(start: i64, end: i64, step: i64) returns (visited: seq<i64>)
    requires Fits(Beyond(start, end, step))
    ensures visited == RangeValues(start, end, step)
  {
    visited := [];
    var idx: i64 := start;
    while RangeGoes(idx, end, step)
      invariant Fits(Beyond(idx, end, step))
      invariant RangeValues(start, end, step) == visited + RangeValues(idx, end, step)
      decreases RangeCount(idx, end, step)
    {
      NextFits(idx, end, step);
      WrapFits(idx + step);
      var next: i64 := Add(idx, step);
      ValuesUnfold(idx, end, step);
      CountAfterStep(idx, end, step);
      assert visited + ([idx] + RangeValues(next, end, step)) == visited + [idx] + RangeValues(next, end, step);
      visited := visited + [idx];
      idx := next;
    }
    GoesExactlyWhenCounted(idx, end, step);
    assert RangeValues(idx, end, step) == [];
  }
}
