/** What a run of a pulse loop amounts to, stated about the pulses themselves: the defined
    samples fed to a slot and the values committed to it. */
module PulseResults {
  import opened Wrappers
  import opened Int64
  import opened CursorRing
  import opened PulseLayout
  import opened PulseSteps
  import opened PulseRun

  // ----- what the pulses feed and commit -----

  function SampleFor(a: Action, k: nat): seq<i64> {
    if (a.Average? || a.Maximum?) && a.slot == k && Defined(a.x) then [a.x] else []
  }

  function FedBody(body: seq<Action>, k: nat): seq<i64> {
    if body == [] then [] else SampleFor(body[0], k) + FedBody(body[1..], k)
  }

  function ValueFor(c: Commit, k: nat): seq<i64> {
    if c.slot == k && c.value.Some? then [c.value.value] else []
  }

  function CommittedIn(cs: seq<Commit>, k: nat): seq<i64> {
    if cs == [] then [] else ValueFor(cs[0], k) + CommittedIn(cs[1..], k)
  }

  function Fed(pulses: seq<Pulse>, k: nat): seq<i64> {
    if pulses == [] then [] else FedBody(pulses[0].body, k) + Fed(pulses[1..], k)
  }

  function Committed(pulses: seq<Pulse>, k: nat): seq<i64> {
    if pulses == [] then [] else CommittedIn(pulses[0].commits, k) + Committed(pulses[1..], k)
  }

  /** The values of a slot: 0, then what was committed. */
  function Values(pulses: seq<Pulse>, k: nat): seq<i64> {
    [0] + Committed(pulses, k)
  }

  function Meaning(p: Plan, pulses: seq<Pulse>): States {
    seq(|p.slots|, k requires 0 <= k < |p.slots| => SlotState(Fed(pulses, k), Values(pulses, k)))
  }

  // ----- the fold has this closed form -----

  function Grown(st: SlotState, samples: seq<i64>, values: seq<i64>): SlotState {
    SlotState(st.samples + samples, st.values + values)
  }

  lemma GrownTwice(st: SlotState, s1: seq<i64>, v1: seq<i64>, s2: seq<i64>, v2: seq<i64>)
    ensures Grown(Grown(st, s1, v1), s2, v2) == Grown(st, s1 + s2, v1 + v2) && Grown(st, [], []) == st
  {
    assert st.samples + s1 + s2 == st.samples + (s1 + s2) && st.values + v1 + v2 == st.values + (v1 + v2);
    assert st.samples + [] == st.samples && st.values + [] == st.values;
  }

  lemma ActionFeeds(p: Plan, frame: States, sts: States, a: Action, k: nat)
    requires ValidPlan(p) && ValidStates(p, frame) && ValidStates(p, sts) && ValidAction(p, a) && k < |sts|
    ensures SpecAction(p, frame, sts, a).0[k] == Grown(sts[k], SampleFor(a, k), [])
  {
    GrownTwice(sts[k], [], [], [], []);
  }

  lemma {:induction false} BodyFeeds(p: Plan, frame: States, sts: States, body: seq<Action>, k: nat)
    requires ValidPlan(p) && ValidStates(p, frame) && ValidStates(p, sts) && ValidBody(p, body) && k < |sts|
    ensures SpecBody(p, frame, sts, body).0[k] == Grown(sts[k], FedBody(body, k), [])
    decreases |body|
  {
    if body == [] {
      GrownTwice(sts[k], [], [], [], []);
    } else {
      ActionFeeds(p, frame, sts, body[0], k);
      BodyFeeds(p, frame, SpecAction(p, frame, sts, body[0]).0, body[1..], k);
      GrownTwice(sts[k], SampleFor(body[0], k), [], FedBody(body[1..], k), []);
    }
  }

  lemma {:induction false} CommitsAppend(sts: States, cs: seq<Commit>, k: nat)
    requires k < |sts| && forall i :: 0 <= i < |cs| ==> cs[i].slot < |sts|
    ensures SpecCommits(sts, cs)[k] == Grown(sts[k], [], CommittedIn(cs, k))
    decreases |cs|
  {
    GrownTwice(sts[k], [], [], [], []);
    if cs != [] {
      CommitsAppend(SpecCommit(sts, cs[0]), cs[1..], k);
      GrownTwice(sts[k], [], ValueFor(cs[0], k), [], CommittedIn(cs[1..], k));
    }
  }

  lemma PulseFeeds(p: Plan, sts: States, pulse: Pulse, k: nat)
    requires ValidPlan(p) && ValidStates(p, sts) && ValidPulse(p, pulse) && k < |sts|
    ensures var sts' := SpecCommits(SpecBody(p, sts, sts, pulse.body).0, pulse.commits);
            ValidStates(p, sts') && sts'[k] == Grown(sts[k], FedBody(pulse.body, k), CommittedIn(pulse.commits, k))
  {
    var sts1 := SpecBody(p, sts, sts, pulse.body).0;
    BodyFeeds(p, sts, sts, pulse.body, k);
    SpecCommitsValid(p, sts1, pulse.commits);
    CommitsAppend(sts1, pulse.commits, k);
    GrownTwice(sts[k], FedBody(pulse.body, k), [], [], CommittedIn(pulse.commits, k));
    assert FedBody(pulse.body, k) + [] == FedBody(pulse.body, k)
           && [] + CommittedIn(pulse.commits, k) == CommittedIn(pulse.commits, k);
  }

  lemma {:induction false} RunFeeds(p: Plan, sts: States, pulses: seq<Pulse>, k: nat)
    requires ValidPlan(p) && ValidStates(p, sts) && ValidPulses(p, pulses) && k < |sts|
    ensures SpecRun(p, sts, pulses).0[k] == Grown(sts[k], Fed(pulses, k), Committed(pulses, k))
    decreases |pulses|
  {
    if pulses == [] {
      GrownTwice(sts[k], [], [], [], []);
    } else {
      assert ValidPulse(p, pulses[0]);
      PulseFeeds(p, sts, pulses[0], k);
      RunFeeds(p, SpecCommits(SpecBody(p, sts, sts, pulses[0].body).0, pulses[0].commits), pulses[1..], k);
      GrownTwice(sts[k], FedBody(pulses[0].body, k), CommittedIn(pulses[0].commits, k),
                 Fed(pulses[1..], k), Committed(pulses[1..], k));
    }
  }

  lemma RunHasMeaning(p: Plan, pulses: seq<Pulse>)
    requires ValidPlan(p) && ValidPulses(p, pulses)
    ensures SpecRun(p, AllFresh(p), pulses).0 == Meaning(p, pulses) && ValidStates(p, Meaning(p, pulses))
  {
    forall k | 0 <= k < |p.slots| ensures SpecRun(p, AllFresh(p), pulses).0[k] == Meaning(p, pulses)[k] {
      RunFeeds(p, AllFresh(p), pulses, k);
      assert [] + Fed(pulses, k) == Fed(pulses, k);
    }
  }

  /** After every run from the zeroed ledger, the words of each slot encode exactly the defined
      samples fed to it and the values committed to it. */
  lemma LedgerAfterRun(p: Plan, pulses: seq<Pulse>)
    requires ValidPlan(p) && ValidPulses(p, pulses)
    ensures RepresentsAll(p, Run(p, Zeroed(p), pulses).0, Meaning(p, pulses))
  {
    EveryRunRefines(p, pulses);
    RunHasMeaning(p, pulses);
  }

  lemma RingAfterRun(p: Plan, pulses: seq<Pulse>, k: nat, c: nat)
    requires ValidPlan(p) && ValidPulses(p, pulses) && k < |p.slots| && p.slots[k].IsWindow() && c < p.slots[k].win
    ensures var mem := Run(p, Zeroed(p), pulses).0;
            && Aligned(RingCellOff(p.slots[k], c), mem)
            && Load(mem, RingCellOff(p.slots[k], c)) == Cells(Fed(pulses, k), p.slots[k].win)[c]
  {
    LedgerAfterRun(p, pulses);
    RingField(Run(p, Zeroed(p), pulses).0, p.slots[k], Meaning(p, pulses)[k], c);
  }

  /** Until the window is full, the sample ring holds what was fed, then zeroes. */
  lemma RingBeforeWarm(p: Plan, pulses: seq<Pulse>, k: nat, c: nat)
    requires ValidPlan(p) && ValidPulses(p, pulses) && k < |p.slots| && p.slots[k].IsWindow() && c < p.slots[k].win
    requires |Fed(pulses, k)| <= p.slots[k].win
    ensures var mem, fed := Run(p, Zeroed(p), pulses).0, Fed(pulses, k);
            && Aligned(RingCellOff(p.slots[k], c), mem)
            && Load(mem, RingCellOff(p.slots[k], c)) == if c < |fed| then fed[c] else 0
  {
    RingAfterRun(p, pulses, k, c);
    CellsWhileFilling(Fed(pulses, k), p.slots[k].win);
  }

  /** Where the i-th of the newest n of m samples stands. */
  function WarmCell(m: nat, n: nat, i: nat): (c: nat)
    requires 0 < n
    ensures c < n
  {
    (CellOf(m - n, n) + i) % n
  }

  lemma WarmCellHolds(ws: seq<i64>, n: nat, i: nat)
    requires 0 < n <= TWO64 && n <= |ws| && WindowIntact(|ws|, n) && i < n
    ensures Cells(ws, n)[WarmCell(|ws|, n, i)] == ws[|ws| - n + i]
  {
    CellInWindow(ws, n, i);
  }

  /** From then on it holds the newest n samples in order, rotated: cell c has the i-th. */
  lemma RingWhenWarm(p: Plan, pulses: seq<Pulse>, k: nat, i: nat, c: nat)
    requires ValidPlan(p) && ValidPulses(p, pulses) && k < |p.slots| && p.slots[k].IsWindow() && i < p.slots[k].win
    requires p.slots[k].win <= |Fed(pulses, k)| && WindowIntact(|Fed(pulses, k)|, p.slots[k].win)
    requires c == WarmCell(|Fed(pulses, k)|, p.slots[k].win, i)
    ensures var mem, fed := Run(p, Zeroed(p), pulses).0, Fed(pulses, k);
            && Aligned(RingCellOff(p.slots[k], c), mem)
            && Load(mem, RingCellOff(p.slots[k], c)) == fed[|fed| - p.slots[k].win + i]
  {
    RingAfterRun(p, pulses, k, c);
    assert Cells(Fed(pulses, k), p.slots[k].win)[c] == Fed(pulses, k)[|Fed(pulses, k)| - p.slots[k].win + i] by {
      WarmCellHolds(Fed(pulses, k), p.slots[k].win, i);
    }
  }

  // ----- the outputs -----

  lemma PrefixUnfolds<T>(s: seq<T>, i: nat)
    requires 0 < i <= |s|
    ensures s[..i][0] == s[0] && s[..i][1..] == s[1..][..i - 1]
  {
  }

  lemma {:induction false} BodyOutput(p: Plan, frame: States, sts: States, body: seq<Action>, j: nat)
    requires ValidPlan(p) && ValidStates(p, frame) && ValidStates(p, sts) && ValidBody(p, body) && j < |body|
    ensures ValidBody(p, body[..j]) && |SpecBody(p, frame, sts, body).1| == |body|
    ensures SpecBody(p, frame, sts, body).1[j] == SpecAction(p, frame, SpecBody(p, frame, sts, body[..j]).0, body[j]).1
    decreases |body|
  {
    if j == 0 {
      assert body[..j] == [];
      BodyLength(p, frame, sts, body);
    } else {
      var sts1 := SpecAction(p, frame, sts, body[0]).0;
      BodyOutput(p, frame, sts1, body[1..], j - 1);
      PrefixUnfolds(body, j);
    }
  }

  lemma {:induction false} BodyLength(p: Plan, frame: States, sts: States, body: seq<Action>)
    requires ValidPlan(p) && ValidStates(p, frame) && ValidStates(p, sts) && ValidBody(p, body)
    ensures |SpecBody(p, frame, sts, body).1| == |body|
    decreases |body|
  {
    if body != [] {
      BodyLength(p, frame, SpecAction(p, frame, sts, body[0]).0, body[1..]);
    }
  }

  lemma {:induction false} RunOutput(p: Plan, sts: States, pulses: seq<Pulse>, i: nat)
    requires ValidPlan(p) && ValidStates(p, sts) && ValidPulses(p, pulses) && i < |pulses|
    ensures ValidPulses(p, pulses[..i]) && ValidPulse(p, pulses[i]) && |SpecRun(p, sts, pulses).1| == |pulses|
    ensures var frame := SpecRun(p, sts, pulses[..i]).0;
            SpecRun(p, sts, pulses).1[i] == SpecBody(p, frame, frame, pulses[i].body).1
    decreases |pulses|
  {
    assert ValidPulse(p, pulses[0]);
    var sts1 := SpecBody(p, sts, sts, pulses[0].body).0;
    SpecCommitsValid(p, sts1, pulses[0].commits);
    var sts2 := SpecCommits(sts1, pulses[0].commits);
    if i == 0 {
      assert pulses[..i] == [];
      RunLength(p, sts2, pulses[1..]);
    } else {
      PrefixUnfolds(pulses, i);
      RunOutput(p, sts2, pulses[1..], i - 1);
    }
  }

  lemma {:induction false} RunLength(p: Plan, sts: States, pulses: seq<Pulse>)
    requires ValidPlan(p) && ValidStates(p, sts) && ValidPulses(p, pulses)
    ensures |SpecRun(p, sts, pulses).1| == |pulses|
    decreases |pulses|
  {
    if pulses != [] {
      assert ValidPulse(p, pulses[0]);
      var sts1 := SpecBody(p, sts, sts, pulses[0].body).0;
      SpecCommitsValid(p, sts1, pulses[0].commits);
      RunLength(p, SpecCommits(sts1, pulses[0].commits), pulses[1..]);
    }
  }

  /** The samples fed to slot k before step j of pulse i. */
  function FedBefore(pulses: seq<Pulse>, i: nat, j: nat, k: nat): seq<i64>
    requires i < |pulses| && j <= |pulses[i].body|
  {
    Fed(pulses[..i], k) + FedBody(pulses[i].body[..j], k)
  }

  predicate ValidStep(p: Plan, pulses: seq<Pulse>, i: nat, j: nat) {
    ValidPlan(p) && ValidPulses(p, pulses) && i < |pulses| && j < |pulses[i].body|
  }

  /** What step j of pulse i returns, from the states its pulse and it begin in. */
  lemma StepOutput(p: Plan, pulses: seq<Pulse>, i: nat, j: nat)
    requires ValidStep(p, pulses, i, j)
    ensures var outs, frame, body := Run(p, Zeroed(p), pulses).1, Meaning(p, pulses[..i]), pulses[i].body;
            && |outs| == |pulses| && |outs[i]| == |body|
            && ValidPulses(p, pulses[..i]) && ValidPulse(p, pulses[i]) && ValidBody(p, body[..j])
            && ValidStates(p, frame)
            && outs[i][j] == SpecAction(p, frame, SpecBody(p, frame, frame, body[..j]).0, body[j]).1
  {
    EveryRunRefines(p, pulses);
    RunOutput(p, AllFresh(p), pulses, i);
    RunHasMeaning(p, pulses[..i]);
    var frame := Meaning(p, pulses[..i]);
    BodyOutput(p, frame, frame, pulses[i].body, j);
  }

  lemma StepSamples(p: Plan, pulses: seq<Pulse>, i: nat, j: nat, k: nat)
    requires ValidStep(p, pulses, i, j) && k < |p.slots|
    requires ValidPulse(p, pulses[i]) && ValidBody(p, pulses[i].body[..j]) && ValidStates(p, Meaning(p, pulses[..i]))
    ensures var frame := Meaning(p, pulses[..i]);
            var st := SpecBody(p, frame, frame, pulses[i].body[..j]).0[k];
            st.Valid() && st.samples == FedBefore(pulses, i, j, k)
  {
    var frame := Meaning(p, pulses[..i]);
    BodyFeeds(p, frame, frame, pulses[i].body[..j], k);
  }

  /** Every average step returns the sentinel or the wrapped ring total divided by the window. */
  lemma AverageOutput(p: Plan, pulses: seq<Pulse>, i: nat, j: nat)
    requires ValidStep(p, pulses, i, j) && pulses[i].body[j].Average?
    ensures var outs, a := Run(p, Zeroed(p), pulses).1, pulses[i].body[j];
            && |outs| == |pulses| && |outs[i]| == |pulses[i].body| && a.slot < |p.slots|
            && 0 < p.slots[a.slot].win < 0x8000_0000
            && var fed := FedBefore(pulses, i, j, a.slot) + [a.x];
               && outs[i][j] == (if Defined(a.x) then AvgOut(fed, p.slots[a.slot].win) else UNDEF)
               && (Defined(a.x) ==> forall k :: 0 <= k < |fed| ==> Defined(fed[k]))
  {
    StepOutput(p, pulses, i, j);
    StepSamples(p, pulses, i, j, pulses[i].body[j].slot);
  }

  lemma MeanOrUndef(fed: seq<i64>, n: nat, out: i64)
    requires 0 < n < 0x8000_0000 && out == AvgOut(fed, n) && forall k :: 0 <= k < |fed| ==> Defined(fed[k])
    ensures out == UNDEF <==> |fed| < n
    ensures n <= |fed| && WindowIntact(|fed|, n) ==>
              var sum := Total(Window(fed, n));
              (Abs(out * n) <= Abs(sum) && Abs(sum - out * n) < n <==> Fits(sum))
  {
    AvgUndefExactlyWhenCold(fed, n);
    if n <= |fed| && WindowIntact(|fed|, n) {
      AvgIsMeanExactly(fed, n);
    }
  }

  /** Every average step of every run: undefined exactly for an undefined sample or a window
      that is not full, and once warm the truncated mean of the newest n defined samples
      exactly when their sum fits a word. In a run of fewer than 2^64 samples the window is
      always intact. */
  lemma AverageInRun(p: Plan, pulses: seq<Pulse>, i: nat, j: nat)
    requires ValidStep(p, pulses, i, j) && pulses[i].body[j].Average?
    ensures var outs, a := Run(p, Zeroed(p), pulses).1, pulses[i].body[j];
            && |outs| == |pulses| && |outs[i]| == |pulses[i].body| && a.slot < |p.slots|
            && var out, n, fed := outs[i][j], p.slots[a.slot].win, FedBefore(pulses, i, j, a.slot) + [a.x];
               && (out == UNDEF <==> !Defined(a.x) || |fed| < n)
               && (Defined(a.x) && 0 < n <= |fed| && WindowIntact(|fed|, n) ==>
                     var sum := Total(Window(fed, n));
                     (Abs(out * n) <= Abs(sum) && Abs(sum - out * n) < n <==> Fits(sum)))
  {
    var a := pulses[i].body[j];
    AverageOutput(p, pulses, i, j);
    var out, n, fed := Run(p, Zeroed(p), pulses).1[i][j], p.slots[a.slot].win, FedBefore(pulses, i, j, a.slot) + [a.x];
    if Defined(a.x) {
      MeanOrUndef(fed, n, out);
    }
  }

  /** Every maximum step likewise, with the maximum of the newest max(1, n - 1). */
  lemma MaximumInRun(p: Plan, pulses: seq<Pulse>, i: nat, j: nat)
    requires ValidStep(p, pulses, i, j) && pulses[i].body[j].Maximum?
    ensures var outs, a := Run(p, Zeroed(p), pulses).1, pulses[i].body[j];
            && |outs| == |pulses| && |outs[i]| == |pulses[i].body| && a.slot < |p.slots|
            && var out, n, fed := outs[i][j], p.slots[a.slot].win, FedBefore(pulses, i, j, a.slot) + [a.x];
               && (out == UNDEF <==> !Defined(a.x) || |fed| < n)
               && var w := if n <= 1 then 1 else n - 1;
                  (Defined(a.x) && 0 < n <= |fed| && NewestIntact(|fed|, w, n) ==> out == Largest(Window(fed, w)))
  {
    var a := pulses[i].body[j];
    StepOutput(p, pulses, i, j);
    StepSamples(p, pulses, i, j, a.slot);
    var n, fed := p.slots[a.slot].win, FedBefore(pulses, i, j, a.slot) + [a.x];
    if Defined(a.x) {
      MaxUndefExactlyWhenCold(fed, n);
      if n <= |fed| && NewestIntact(|fed|, if n <= 1 then 1 else n - 1, n) {
        MaxIsLargestOfNewest(fed, n);
      }
    }
  }

  // ----- the reads -----

  lemma ValuesOf(p: Plan, pulses: seq<Pulse>, k: nat)
    requires ValidPlan(p) && ValidPulses(p, pulses) && k < |p.slots|
    ensures var st := Meaning(p, pulses)[k];
            st.Valid() && st.values == Values(pulses, k) && |Past(st)| == |Committed(pulses, k)|
            && Current(st) == Values(pulses, k)[|Past(st)|]
  {
    RunHasMeaning(p, pulses);
  }

  /** Every state read inside pulse i of every run, wherever it stands, gives the last value that
      the pulses before have committed. */
  lemma ValueInRun(p: Plan, pulses: seq<Pulse>, i: nat, j: nat)
    requires ValidStep(p, pulses, i, j) && pulses[i].body[j].ReadValue?
    ensures var outs, k := Run(p, Zeroed(p), pulses).1, pulses[i].body[j].slot;
            && |outs| == |pulses| && |outs[i]| == |pulses[i].body|
            && outs[i][j] == Values(pulses[..i], k)[|Committed(pulses[..i], k)|]
  {
    StepOutput(p, pulses, i, j);
    ValuesOf(p, pulses[..i], pulses[i].body[j].slot);
  }

  /** Every history read of depth d inside a pulse, in every run: with m values committed by the
      pulses before, it goes 1 + d steps back. */
  lemma HistoryStep(p: Plan, pulses: seq<Pulse>, i: nat, j: nat)
    requires ValidStep(p, pulses, i, j) && pulses[i].body[j].ReadHistory?
    ensures var outs, a := Run(p, Zeroed(p), pulses).1, pulses[i].body[j];
            && |outs| == |pulses| && |outs[i]| == |pulses[i].body| && a.slot < |p.slots|
            && 0 < p.slots[a.slot].win <= TWO64
            && outs[i][j] == HistValue(Values(pulses[..i], a.slot), p.slots[a.slot].win, 1 + a.depth)
  {
    var a := pulses[i].body[j];
    StepOutput(p, pulses, i, j);
    ValuesOf(p, pulses[..i], a.slot);
  }

  /** So it gives v_(m - 1 - d) as long as there are that many values and the cell is intact. */
  lemma HistoryInRun(p: Plan, pulses: seq<Pulse>, i: nat, j: nat)
    requires ValidStep(p, pulses, i, j) && pulses[i].body[j].ReadHistory?
    ensures var outs, a := Run(p, Zeroed(p), pulses).1, pulses[i].body[j];
            && |outs| == |pulses| && |outs[i]| == |pulses[i].body| && a.slot < |p.slots|
            && 0 < p.slots[a.slot].win <= TWO64
            && outs[i][j] == HistValue(Values(pulses[..i], a.slot), p.slots[a.slot].win, 1 + a.depth)
            && ReadsBack(Values(pulses[..i], a.slot), p.slots[a.slot].win, 1 + a.depth, outs[i][j])
  {
    var a := pulses[i].body[j];
    HistoryStep(p, pulses, i, j);
    HistReadsBack(Values(pulses[..i], a.slot), p.slots[a.slot].win, 1 + a.depth,
                  Run(p, Zeroed(p), pulses).1[i][j]);
  }

  /** After the loop, with m commits in all, a read of depth d goes d steps back. */
  lemma HistoryAfterRun(p: Plan, pulses: seq<Pulse>, k: nat, d: nat)
    requires ValidPlan(p) && ValidPulses(p, pulses) && k < |p.slots| && p.slots[k].kind != Acc
    ensures var out := HistLoad(Run(p, Zeroed(p), pulses).0, p.slots[k], d);
            && out == HistValue(Values(pulses, k), p.slots[k].win, d)
            && ReadsBack(Values(pulses, k), p.slots[k].win, d, out)
  {
    HistoryAfterLoop(p, pulses, k, d);
    RunHasMeaning(p, pulses);
  }

  /** Reads from the zeroed ledger that find nothing so old give 0, whatever was committed, exactly
      for the windows whose length divides 2^64 or 2^64 - 1. */
  lemma EarlyHistoryIsZero(p: Plan, pulses: seq<Pulse>, k: nat, d: nat)
    requires ValidPlan(p) && ValidPulses(p, pulses) && k < |p.slots| && p.slots[k].kind != Acc
    requires |Committed(pulses, k)| < d <= p.slots[k].win && TWO64 % p.slots[k].win <= 1
    ensures HistLoad(Run(p, Zeroed(p), pulses).0, p.slots[k], d) == 0
  {
    HistoryAfterRun(p, pulses, k, d);
  }

  /** For every other window, a read back over the whole of it, with one commit fewer than that,
      gives a committed value although nothing is that old. */
  lemma EarlyHistoryIsStale(p: Plan, pulses: seq<Pulse>, k: nat)
    requires ValidPlan(p) && ValidPulses(p, pulses) && k < |p.slots| && p.slots[k].kind != Acc
    requires |Committed(pulses, k)| == p.slots[k].win - 1 && TWO64 % p.slots[k].win > 1
    ensures var win := p.slots[k].win;
            HistLoad(Run(p, Zeroed(p), pulses).0, p.slots[k], win) == Committed(pulses, k)[TWO64 % win - 2]
  {
    HistoryAfterRun(p, pulses, k, p.slots[k].win);
    DeepestEarlyCell(p.slots[k].win);
  }

  /** One tracked slot, and one pulse for each of some values to commit. */
  function Tracked(win: nat): Plan {
    Plan([Slot(Track, 0, win)], SlotBytes(Track, win))
  }

  function CommitsOf(values: seq<i64>): seq<Pulse> {
    if values == [] then [] else [Pulse([], [Commit(0, Some(values[0]))])] + CommitsOf(values[1..])
  }

  /** There are runs with any commits. */
  lemma {:induction false} CommittedOf(values: seq<i64>, win: nat)
    requires 0 < win < 0x8000_0000
    ensures ValidPlan(Tracked(win)) && ValidPulses(Tracked(win), CommitsOf(values))
    ensures Committed(CommitsOf(values), 0) == values
  {
    if values != [] {
      CommittedOf(values[1..], win);
      assert CommittedIn([Commit(0, Some(values[0]))], 0) == [values[0]] + [];
    }
  }

  /** With a window of 7, three commits and a read of four steps back give the first commit. */
  lemma StaleReadOfSeven(values: seq<i64>)
    requires |values| == 3
    ensures var p, pulses := Tracked(7), CommitsOf(values);
            && ValidPlan(p) && ValidPulses(p, pulses)
            && HistLoad(Run(p, Zeroed(p), pulses).0, p.slots[0], 4) == values[0]
  {
    CommittedOf(values, 7);
    HistoryAfterRun(Tracked(7), CommitsOf(values), 0, 4);
    assert EarlyCell(3, 4, 7) == 1;
  }
}
