/** Whole runs of a pulse loop. Each pulse copies the ledger to a snapshot, runs a body of
    average steps, maximum steps and state reads, and then commits. The flat ledger is proved
    to behave as if every slot kept its own two sequences, for every plan and every run. */
module PulseRun {
  import opened Wrappers
  import opened Int64
  import opened CursorRing
  import opened PulseLayout
  import opened PulseSteps

  datatype Action =
    | Average(slot: nat, x: i64)
    | Maximum(slot: nat, x: i64)
    | ReadValue(slot: nat)
    | ReadHistory(slot: nat, depth: nat)

  /** The value to store for a slot, or None when its variable does not exist. */
  datatype Commit = Commit(slot: nat, value: Option<i64>)

  datatype Pulse = Pulse(body: seq<Action>, commits: seq<Commit>)

  predicate Sized(p: Plan, mem: Words) {
    ValidPlan(p) && 8 * |mem| == p.totalBytes
  }

  predicate ValidAction(p: Plan, a: Action) {
    && a.slot < |p.slots|
    && (a.Average? ==> p.slots[a.slot].kind == WinAvg)
    && (a.Maximum? ==> p.slots[a.slot].kind == WinMax)
    && (a.ReadHistory? ==> p.slots[a.slot].kind != Acc)
  }

  predicate ValidBody(p: Plan, body: seq<Action>) {
    forall i :: 0 <= i < |body| ==> ValidAction(p, body[i])
  }

  predicate ValidCommits(p: Plan, cs: seq<Commit>) {
    forall i :: 0 <= i < |cs| ==> cs[i].slot < |p.slots|
  }

  predicate ValidPulse(p: Plan, pulse: Pulse) {
    ValidBody(p, pulse.body) && ValidCommits(p, pulse.commits)
  }

  predicate ValidPulses(p: Plan, pulses: seq<Pulse>) {
    forall i :: 0 <= i < |pulses| ==> ValidPulse(p, pulses[i])
  }

  lemma SlotPlaced(p: Plan, mem: Words, k: nat)
    requires Sized(p, mem) && k < |p.slots|
    ensures Placed(p.slots[k], mem)
  {
  }

  // ----- the ledger as the code runs it -----

  function DoAction(p: Plan, snap: Words, mem: Words, a: Action): (r: (Words, i64))
    requires Sized(p, snap) && Sized(p, mem) && ValidAction(p, a)
    ensures |r.0| == |mem|
  {
    var s := p.slots[a.slot];
    SlotPlaced(p, mem, a.slot);
    SlotPlaced(p, snap, a.slot);
    match a
    case Average(_, x) => AvgStep(mem, s, x)
    case Maximum(_, x) => MaxStep(mem, s, x)
    case ReadValue(_) => (mem, Load(snap, ValueOff(s)))
    case ReadHistory(_, d) => (mem, HistLoad(snap, s, 1 + d))
  }

  function RunBody(p: Plan, snap: Words, mem: Words, body: seq<Action>): (r: (Words, seq<i64>))
    requires Sized(p, snap) && Sized(p, mem) && ValidBody(p, body)
    ensures |r.0| == |mem|
    decreases |body|
  {
    if body == [] then (mem, [])
    else
      var (mem1, out) := DoAction(p, snap, mem, body[0]);
      var (mem2, outs) := RunBody(p, snap, mem1, body[1..]);
      (mem2, [out] + outs)
  }

  function CommitOne(p: Plan, mem: Words, c: Commit): (mem': Words)
    requires Sized(p, mem) && c.slot < |p.slots|
    ensures |mem'| == |mem|
  {
    SlotPlaced(p, mem, c.slot);
    match c.value
    case None => mem
    case Some(v) => CommitSlot(mem, p.slots[c.slot], v)
  }

  function CommitAll(p: Plan, mem: Words, cs: seq<Commit>): (mem': Words)
    requires Sized(p, mem) && ValidCommits(p, cs)
    ensures |mem'| == |mem|
    decreases |cs|
  {
    if cs == [] then mem else CommitAll(p, CommitOne(p, mem, cs[0]), cs[1..])
  }

  /** One iteration of the loop: the body reads the snapshot taken when it starts. */
  function RunOnce(p: Plan, mem: Words, pulse: Pulse): (r: (Words, seq<i64>))
    requires Sized(p, mem) && ValidPulse(p, pulse)
    ensures |r.0| == |mem|
  {
    var (mem1, outs) := RunBody(p, mem, mem, pulse.body);
    (CommitAll(p, mem1, pulse.commits), outs)
  }

  function Run(p: Plan, mem: Words, pulses: seq<Pulse>): (r: (Words, seq<seq<i64>>))
    requires Sized(p, mem) && ValidPulses(p, pulses)
    ensures |r.0| == |mem|
    decreases |pulses|
  {
    if pulses == [] then (mem, [])
    else
      assert ValidPulse(p, pulses[0]);
      var (mem1, outs) := RunOnce(p, mem, pulses[0]);
      var (mem2, rest) := Run(p, mem1, pulses[1..]);
      (mem2, [outs] + rest)
  }

  // ----- the same run on one state per slot -----

  type States = seq<SlotState>

  ghost predicate ValidStates(p: Plan, sts: States) {
    |sts| == |p.slots| && forall i :: 0 <= i < |sts| ==> sts[i].Valid()
  }

  ghost function SpecAction(p: Plan, frame: States, sts: States, a: Action): (r: (States, i64))
    requires ValidPlan(p) && ValidStates(p, frame) && ValidStates(p, sts) && ValidAction(p, a)
    ensures ValidStates(p, r.0)
  {
    var win, st, st0 := p.slots[a.slot].win, sts[a.slot], frame[a.slot];
    match a
    case Average(k, x) =>
      if x == UNDEF then (sts, UNDEF) else (sts[k := Sample(st, x)], AvgOut(st.samples + [x], win))
    case Maximum(k, x) =>
      if x == UNDEF then (sts, UNDEF) else (sts[k := Sample(st, x)], MaxOut(st.samples + [x], win))
    case ReadValue(_) => (sts, Current(st0))
    case ReadHistory(_, d) => (sts, HistValue(st0.values, win, 1 + d))
  }

  ghost function SpecBody(p: Plan, frame: States, sts: States, body: seq<Action>): (r: (States, seq<i64>))
    requires ValidPlan(p) && ValidStates(p, frame) && ValidStates(p, sts) && ValidBody(p, body)
    ensures ValidStates(p, r.0)
    decreases |body|
  {
    if body == [] then (sts, [])
    else
      var (sts1, out) := SpecAction(p, frame, sts, body[0]);
      var (sts2, outs) := SpecBody(p, frame, sts1, body[1..]);
      (sts2, [out] + outs)
  }

  ghost function SpecCommit(sts: States, c: Commit): (r: States)
    requires c.slot < |sts|
    ensures |r| == |sts|
  {
    if c.value.None? then sts else sts[c.slot := Hold(sts[c.slot], c.value.value)]
  }

  ghost function SpecCommits(sts: States, cs: seq<Commit>): (r: States)
    requires forall i :: 0 <= i < |cs| ==> cs[i].slot < |sts|
    ensures |r| == |sts|
    decreases |cs|
  {
    if cs == [] then sts else SpecCommits(SpecCommit(sts, cs[0]), cs[1..])
  }

  lemma {:induction false} SpecCommitsValid(p: Plan, sts: States, cs: seq<Commit>)
    requires ValidStates(p, sts) && ValidCommits(p, cs)
    ensures ValidStates(p, SpecCommits(sts, cs))
    decreases |cs|
  {
    if cs != [] {
      SpecCommitsValid(p, SpecCommit(sts, cs[0]), cs[1..]);
    }
  }

  ghost function SpecRun(p: Plan, sts: States, pulses: seq<Pulse>): (r: (States, seq<seq<i64>>))
    requires ValidPlan(p) && ValidStates(p, sts) && ValidPulses(p, pulses)
    ensures ValidStates(p, r.0)
    decreases |pulses|
  {
    if pulses == [] then (sts, [])
    else
      assert ValidPulse(p, pulses[0]);
      var (sts1, outs) := SpecBody(p, sts, sts, pulses[0].body);
      SpecCommitsValid(p, sts1, pulses[0].commits);
      var (sts2, rest) := SpecRun(p, SpecCommits(sts1, pulses[0].commits), pulses[1..]);
      (sts2, [outs] + rest)
  }

  // ----- refinement -----

  ghost predicate RepresentsAll(p: Plan, mem: Words, sts: States) {
    && Sized(p, mem) && ValidStates(p, sts)
    && forall i :: 0 <= i < |sts| ==> Represents(mem, p.slots[i], sts[i])
  }

  /** A step on one slot leaves every other slot alone, because slots are disjoint. */
  lemma OthersKept(p: Plan, mem: Words, mem': Words, sts: States, k: nat, st': SlotState)
    requires RepresentsAll(p, mem, sts) && k < |sts|
    requires SameOutside(mem, mem', p.slots[k]) && Represents(mem', p.slots[k], st')
    ensures RepresentsAll(p, mem', sts[k := st'])
  {
    forall j | 0 <= j < |sts| && j != k ensures Represents(mem', p.slots[j], sts[j]) {
      var s := p.slots[j];
      assert Disjoint(p.slots[if j < k then j else k], p.slots[if j < k then k else j]);
      forall i: nat | i < SlotSize(s) ensures Get(mem', s, i) == WordOf(s.kind, s.win, sts[j], i) {
        assert !InSlot(p.slots[k], s.offset / 8 + i);
        assert Get(mem, s, i) == WordOf(s.kind, s.win, sts[j], i);
      }
    }
  }

  lemma ActionRefines(p: Plan, snap: Words, frame: States, mem: Words, sts: States, a: Action)
    requires RepresentsAll(p, snap, frame) && RepresentsAll(p, mem, sts) && ValidAction(p, a)
    ensures RepresentsAll(p, DoAction(p, snap, mem, a).0, SpecAction(p, frame, sts, a).0)
    ensures DoAction(p, snap, mem, a).1 == SpecAction(p, frame, sts, a).1
  {
    var k := a.slot;
    var s := p.slots[k];
    match a
    case Average(_, x) =>
      if x != UNDEF {
        AvgRefines(mem, s, sts[k], x);
        OthersKept(p, mem, AvgStep(mem, s, x).0, sts, k, Sample(sts[k], x));
      }
    case Maximum(_, x) =>
      if x != UNDEF {
        MaxRefines(mem, s, sts[k], x);
        OthersKept(p, mem, MaxStep(mem, s, x).0, sts, k, Sample(sts[k], x));
      }
    case ReadValue(_) => ValueRefines(snap, s, frame[k]);
    case ReadHistory(_, d) => HistRefines(snap, s, frame[k], 1 + d);
  }

  lemma {:induction false} BodyRefines(p: Plan, snap: Words, frame: States, mem: Words, sts: States, body: seq<Action>)
    requires RepresentsAll(p, snap, frame) && RepresentsAll(p, mem, sts) && ValidBody(p, body)
    ensures RepresentsAll(p, RunBody(p, snap, mem, body).0, SpecBody(p, frame, sts, body).0)
    ensures RunBody(p, snap, mem, body).1 == SpecBody(p, frame, sts, body).1
    decreases |body|
  {
    if body != [] {
      ActionRefines(p, snap, frame, mem, sts, body[0]);
      BodyRefines(p, snap, frame, DoAction(p, snap, mem, body[0]).0, SpecAction(p, frame, sts, body[0]).0, body[1..]);
    }
  }

  lemma CommitOneRefines(p: Plan, mem: Words, sts: States, c: Commit)
    requires RepresentsAll(p, mem, sts) && c.slot < |p.slots|
    ensures SameOutside(mem, CommitOne(p, mem, c), p.slots[c.slot])
    ensures RepresentsAll(p, CommitOne(p, mem, c), SpecCommit(sts, c))
  {
    if c.value.Some? {
      var s, v := p.slots[c.slot], c.value.value;
      CommitRefines(mem, s, sts[c.slot], v);
      OthersKept(p, mem, CommitSlot(mem, s, v), sts, c.slot, Hold(sts[c.slot], v));
    }
  }

  lemma {:induction false} CommitsRefine(p: Plan, mem: Words, sts: States, cs: seq<Commit>)
    requires RepresentsAll(p, mem, sts) && ValidCommits(p, cs)
    ensures RepresentsAll(p, CommitAll(p, mem, cs), SpecCommits(sts, cs))
    decreases |cs|
  {
    if cs != [] {
      CommitOneRefines(p, mem, sts, cs[0]);
      CommitsRefine(p, CommitOne(p, mem, cs[0]), SpecCommit(sts, cs[0]), cs[1..]);
    }
  }

  lemma {:induction false} RunRefines(p: Plan, mem: Words, sts: States, pulses: seq<Pulse>)
    requires RepresentsAll(p, mem, sts) && ValidPulses(p, pulses)
    ensures RepresentsAll(p, Run(p, mem, pulses).0, SpecRun(p, sts, pulses).0)
    ensures Run(p, mem, pulses).1 == SpecRun(p, sts, pulses).1
    decreases |pulses|
  {
    if pulses != [] {
      assert ValidPulse(p, pulses[0]);
      BodyRefines(p, mem, sts, mem, sts, pulses[0].body);
      var mem1, sts1 := RunBody(p, mem, mem, pulses[0].body).0, SpecBody(p, sts, sts, pulses[0].body).0;
      CommitsRefine(p, mem1, sts1, pulses[0].commits);
      RunRefines(p, CommitAll(p, mem1, pulses[0].commits), SpecCommits(sts1, pulses[0].commits), pulses[1..]);
    }
  }

  // ----- from the zeroed ledger -----

  function Zeroed(p: Plan): Words {
    seq(p.totalBytes / 8, _ => 0)
  }

  function AllFresh(p: Plan): (sts: States) {
    seq(|p.slots|, _ => FRESH)
  }

  lemma ZeroedIsFresh(p: Plan)
    requires ValidPlan(p)
    ensures RepresentsAll(p, Zeroed(p), AllFresh(p))
  {
    forall i | 0 <= i < |p.slots| ensures Represents(Zeroed(p), p.slots[i], FRESH) {
      var s := p.slots[i];
      assert Past(FRESH) == [];
      if s.kind != Acc {
        assert Total(Cells([], s.win)) == 0 by { TotalOfZeroes(Cells([], s.win)); }
      }
    }
  }

  /** Every run from the zeroed ledger behaves like the per-slot sequences: the words of each
      slot encode exactly what was fed and committed to it, and every value a body step
      returned is the one computed from those sequences. */
  lemma EveryRunRefines(p: Plan, pulses: seq<Pulse>)
    requires ValidPlan(p) && ValidPulses(p, pulses)
    ensures RepresentsAll(p, Run(p, Zeroed(p), pulses).0, SpecRun(p, AllFresh(p), pulses).0)
    ensures Run(p, Zeroed(p), pulses).1 == SpecRun(p, AllFresh(p), pulses).1
  {
    ZeroedIsFresh(p);
    RunRefines(p, Zeroed(p), AllFresh(p), pulses);
  }

  // ----- isolation -----

  /** The value a slot held when the frame began, and its history then, are what every read of
      the body returns, wherever it stands among the steps. */
  ghost predicate ReadsFrame(p: Plan, frame: States, a: Action, out: i64)
    requires ValidPlan(p) && ValidStates(p, frame) && ValidAction(p, a)
  {
    var st, win := frame[a.slot], p.slots[a.slot].win;
    match a
    case ReadValue(_) => out == Current(st)
    case ReadHistory(_, d) => out == HistValue(st.values, win, 1 + d) && ReadsBack(st.values, win, 1 + d, out)
    case _ => true
  }

  lemma ReadSeesFrameStart(p: Plan, snap: Words, frame: States, mem: Words, a: Action)
    requires RepresentsAll(p, snap, frame) && Sized(p, mem) && ValidAction(p, a)
    ensures ReadsFrame(p, frame, a, DoAction(p, snap, mem, a).1)
  {
    var s, st := p.slots[a.slot], frame[a.slot];
    match a
    case ReadValue(_) => ValueRefines(snap, s, st);
    case ReadHistory(_, d) =>
      HistRefines(snap, s, st, 1 + d);
      HistReadsValue(snap, s, st, 1 + d);
    case _ =>
  }

  lemma {:induction false} ReadsSeeFrameStart(p: Plan, snap: Words, frame: States, mem: Words, body: seq<Action>)
    requires RepresentsAll(p, snap, frame) && Sized(p, mem) && ValidBody(p, body)
    ensures var outs := RunBody(p, snap, mem, body).1;
            |outs| == |body| && forall i :: 0 <= i < |body| ==> ReadsFrame(p, frame, body[i], outs[i])
    decreases |body|
  {
    if body != [] {
      var (mem1, out) := DoAction(p, snap, mem, body[0]);
      ReadSeesFrameStart(p, snap, frame, mem, body[0]);
      ReadsSeeFrameStart(p, snap, frame, mem1, body[1..]);
      var outs := RunBody(p, snap, mem1, body[1..]).1;
      forall i | 0 <= i < |body| ensures ReadsFrame(p, frame, body[i], ([out] + outs)[i]) {
        if i > 0 {
          assert body[i] == body[1..][i - 1];
        }
      }
    }
  }

  /** After the loop, a read of depth d goes d steps back: v_(m - d), with v_0 = 0 and m commits,
      as long as there are that many and the cell is intact. */
  lemma HistoryAfterLoop(p: Plan, pulses: seq<Pulse>, k: nat, d: nat)
    requires ValidPlan(p) && ValidPulses(p, pulses) && k < |p.slots| && p.slots[k].kind != Acc
    ensures var st, out := SpecRun(p, AllFresh(p), pulses).0[k], HistLoad(Run(p, Zeroed(p), pulses).0, p.slots[k], d);
            out == HistValue(st.values, p.slots[k].win, d) && ReadsBack(st.values, p.slots[k].win, d, out)
  {
    var mem, st := Run(p, Zeroed(p), pulses).0, SpecRun(p, AllFresh(p), pulses).0[k];
    EveryRunRefines(p, pulses);
    HistRefines(mem, p.slots[k], st, d);
    HistReadsValue(mem, p.slots[k], st, d);
  }

  // ----- the order of commits -----

  predicate DistinctSlots(cs: seq<Commit>) {
    forall i, j :: 0 <= i < j < |cs| ==> cs[i].slot != cs[j].slot
  }

  lemma {:induction false} SpecCommitsElsewhere(sts: States, cs: seq<Commit>, k: nat)
    requires forall i :: 0 <= i < |cs| ==> cs[i].slot < |sts|
    requires k < |sts| && forall i :: 0 <= i < |cs| ==> cs[i].slot != k
    ensures SpecCommits(sts, cs)[k] == sts[k]
    decreases |cs|
  {
    if cs != [] {
      SpecCommitsElsewhere(SpecCommit(sts, cs[0]), cs[1..], k);
    }
  }

  lemma {:induction false} SpecCommitsAt(sts: States, cs: seq<Commit>, i: nat)
    requires forall i :: 0 <= i < |cs| ==> cs[i].slot < |sts|
    requires DistinctSlots(cs) && i < |cs|
    ensures SpecCommits(sts, cs)[cs[i].slot] == SpecCommit(sts, cs[i])[cs[i].slot]
    decreases |cs|
  {
    if i == 0 {
      SpecCommitsElsewhere(SpecCommit(sts, cs[0]), cs[1..], cs[0].slot);
    } else {
      SpecCommitsAt(SpecCommit(sts, cs[0]), cs[1..], i - 1);
    }
  }

  lemma SpecCommitsPermute(sts: States, cs: seq<Commit>, cs': seq<Commit>)
    requires forall i :: 0 <= i < |cs| ==> cs[i].slot < |sts|
    requires DistinctSlots(cs) && DistinctSlots(cs') && multiset(cs) == multiset(cs')
    ensures forall i :: 0 <= i < |cs'| ==> cs'[i].slot < |sts|
    ensures SpecCommits(sts, cs) == SpecCommits(sts, cs')
  {
    forall i | 0 <= i < |cs'| ensures cs'[i] in cs {
      assert cs'[i] in multiset(cs');
    }
    forall k | 0 <= k < |sts| ensures SpecCommits(sts, cs)[k] == SpecCommits(sts, cs')[k] {
      if i :| 0 <= i < |cs| && cs[i].slot == k {
        assert cs[i] in multiset(cs');
        var j :| 0 <= j < |cs'| && cs'[j] == cs[i];
        SpecCommitsAt(sts, cs, i);
        SpecCommitsAt(sts, cs', j);
      } else {
        SpecCommitsElsewhere(sts, cs, k);
        SpecCommitsElsewhere(sts, cs', k);
      }
    }
  }

  lemma {:induction false} CommitsOutside(p: Plan, mem: Words, sts: States, cs: seq<Commit>, i: nat)
    requires RepresentsAll(p, mem, sts) && ValidCommits(p, cs) && i < |mem|
    requires forall k :: 0 <= k < |p.slots| ==> !InSlot(p.slots[k], i)
    ensures CommitAll(p, mem, cs)[i] == mem[i]
    decreases |cs|
  {
    if cs != [] {
      CommitOneRefines(p, mem, sts, cs[0]);
      CommitsOutside(p, CommitOne(p, mem, cs[0]), SpecCommit(sts, cs[0]), cs[1..], i);
    }
  }

  /** Two ledgers that represent the same states agree on every word of every slot. */
  lemma SameStatesSameWord(p: Plan, mem1: Words, mem2: Words, sts: States, k: nat, i: nat)
    requires RepresentsAll(p, mem1, sts) && RepresentsAll(p, mem2, sts)
    requires k < |p.slots| && i < |mem1| && InSlot(p.slots[k], i)
    ensures mem1[i] == mem2[i]
  {
    var s := p.slots[k];
    var j := i - s.offset / 8;
    assert Get(mem1, s, j) == WordOf(s.kind, s.win, sts[k], j) == Get(mem2, s, j);
  }

  /** Committing distinct slots gives the same ledger in any order. */
  lemma CommitOrderIrrelevant(p: Plan, mem: Words, sts: States, cs: seq<Commit>, cs': seq<Commit>)
    requires RepresentsAll(p, mem, sts) && ValidCommits(p, cs)
    requires DistinctSlots(cs) && DistinctSlots(cs') && multiset(cs) == multiset(cs')
    ensures ValidCommits(p, cs') && CommitAll(p, mem, cs) == CommitAll(p, mem, cs')
  {
    SpecCommitsPermute(sts, cs, cs');
    CommitsRefine(p, mem, sts, cs);
    CommitsRefine(p, mem, sts, cs');
    var mem1, mem2 := CommitAll(p, mem, cs), CommitAll(p, mem, cs');
    forall i: nat | i < |mem| ensures mem1[i] == mem2[i] {
      if k :| 0 <= k < |p.slots| && InSlot(p.slots[k], i) {
        SameStatesSameWord(p, mem1, mem2, SpecCommits(sts, cs), k, i);
      } else {
        CommitsOutside(p, mem, sts, cs, i);
        CommitsOutside(p, mem, sts, cs', i);
      }
    }
  }
}
