/** The emitted pulse code in place: a ledger and a snapshot block that the steps update. Each
    method is tied to the function on words that PulseSteps and PulseRun reason about. */
module PulseRegion {
  import opened Int64
  import opened PulseLayout
  import opened PulseSteps
  import opened PulseRun

  class Region {
    const plan: Plan
    const ledger: array<i64>
    const snap: array<i64>

    ghost predicate Valid()
      reads this
    {
      && ValidPlan(plan)
      && ledger != snap
      && 8 * ledger.Length == 8 * snap.Length == plan.totalBytes
    }

    constructor (p: Plan)
      requires ValidPlan(p)
      ensures Valid() && plan == p && fresh(ledger) && fresh(snap)
      ensures ledger[..] == Zeroed(p)
    {
      plan := p;
      ledger := new i64[p.totalBytes / 8](_ => 0);
      snap := new i64[p.totalBytes / 8](_ => 0);
    }

    method CopyLedgerToSnap()
      requires Valid()
      modifies snap
      ensures snap[..] == ledger[..]
    {
      var i := 0;
      while i < plan.totalBytes
        invariant i % 8 == 0 && 0 <= i <= plan.totalBytes
        invariant snap[..i / 8] == ledger[..i / 8]
      {
        snap[i / 8] := ledger[i / 8];
        i := i + 8;
      }
    }

    /** The average intrinsic. */
    method SeriesAvgStep(k: nat, x: i64) returns (out: i64)
      requires Valid() && k < |plan.slots| && plan.slots[k].kind == WinAvg
      modifies ledger
      ensures (ledger[..], out) == AvgStep(old(ledger[..]), plan.slots[k], x)
    {
      var s := plan.slots[k];
      if x == UNDEF {
        return UNDEF;
      }
      var n := s.win;
      var cur, cnt, sum := ledger[CursorOff(s) / 8], ledger[CountOff(s) / 8], ledger[SumOff(s) / 8];
      var cell := RingCellOff(s, URem(cur, n));
      var sum2 := Sub(Add(sum, x), ledger[cell / 8]);
      var cntp1 := Add(cnt, 1);
      var cnt2 := if cntp1 < n then cntp1 else n;
      ledger[cell / 8] := x;
      ledger[SumOff(s) / 8] := sum2;
      ledger[CursorOff(s) / 8] := Add(cur, 1);
      ledger[CountOff(s) / 8] := cnt2;
      out := if cnt2 >= n then Quotient(sum2, n) else UNDEF;
    }

    /** The maximum intrinsic, with its scan loop. */
    method SeriesMaxStep(k: nat, x: i64) returns (out: i64)
      requires Valid() && k < |plan.slots| && plan.slots[k].kind == WinMax
      modifies ledger
      ensures (ledger[..], out) == MaxStep(old(ledger[..]), plan.slots[k], x)
    {
      var s := plan.slots[k];
      if x == UNDEF {
        return UNDEF;
      }
      var n := s.win;
      var wp, cnt := ledger[CursorOff(s) / 8], ledger[CountOff(s) / 8];
      var wp2, cntp1 := Add(wp, 1), Add(cnt, 1);
      var cnt2 := if cntp1 < n then cntp1 else n;
      ledger[RingCellOff(s, URem(wp, n)) / 8] := x;
      ledger[CursorOff(s) / 8] := wp2;
      ledger[CountOff(s) / 8] := cnt2;
      ghost var mem := ledger[..];
      var i, best := 1, x;
      while i < cnt2
        invariant 1 <= i
        invariant ScanMax(mem, s, wp2, i, cnt2, best) == ScanMax(mem, s, wp2, 1, cnt2, x)
        invariant ledger[..] == mem
      {
        var cell := ledger[RingCellOff(s, URem(Sub(wp2, i), n)) / 8];
        assert cell == CellBack(mem, s, wp2, i);
        best := if cell > best then cell else best;
        i := i + 1;
      }
      out := if cnt2 < n then UNDEF else best;
    }

    method CommitSlotValue(k: nat, v: i64)
      requires Valid() && k < |plan.slots|
      modifies ledger
      ensures ledger[..] == CommitSlot(old(ledger[..]), plan.slots[k], v)
    {
      var s := plan.slots[k];
      match s.kind
      case Acc =>
        ledger[s.offset / 8] := v;
      case Track | WinAvg | WinMax =>
        var last, hp := ledger[ValueOff(s) / 8], ledger[HistPos(s) / 8];
        ledger[HistCellOff(s, URem(hp, s.win)) / 8] := last;
        ledger[HistPos(s) / 8] := Add(hp, 1);
        ledger[ValueOff(s) / 8] := v;
    }

    /** Entries whose variable does not exist are skipped. */
    method CommitEach(cs: seq<Commit>)
      requires Valid() && ValidCommits(plan, cs)
      modifies ledger
      ensures ledger[..] == CommitAll(plan, old(ledger[..]), cs)
    {
      for i := 0 to |cs|
        invariant CommitAll(plan, ledger[..], cs[i..]) == CommitAll(plan, old(ledger[..]), cs)
      {
        if cs[i].value.Some? {
          CommitSlotValue(cs[i].slot, cs[i].value.value);
        }
        assert cs[i..][1..] == cs[i + 1..];
      }
    }

    method StateSnapLoad(k: nat) returns (v: i64)
      requires Valid() && k < |plan.slots|
      ensures v == Load(snap[..], ValueOff(plan.slots[k]))
    {
      v := snap[ValueOff(plan.slots[k]) / 8];
    }

    /** A history read inside the pulse goes to the snapshot, 1 + depth steps back; one after
        the loop goes to the ledger, depth steps back. */
    method StateHistLoad(k: nat, depth: nat, inPulse: bool) returns (v: i64)
      requires Valid() && k < |plan.slots| && plan.slots[k].kind != Acc
      ensures v == if inPulse then HistLoad(snap[..], plan.slots[k], 1 + depth)
                   else HistLoad(ledger[..], plan.slots[k], depth)
    {
      var s := plan.slots[k];
      var base := if inPulse then snap else ledger;
      var hp := base[HistPos(s) / 8];
      var idx := Sub(hp, Wrap(if inPulse then 1 + depth else depth));
      v := base[HistCellOff(s, URem(idx, s.win)) / 8];
    }

    method Step(a: Action) returns (out: i64)
      requires Valid() && ValidAction(plan, a)
      modifies ledger
      ensures (ledger[..], out) == DoAction(plan, snap[..], old(ledger[..]), a)
    {
      match a
      case Average(k, x) => out := SeriesAvgStep(k, x);
      case Maximum(k, x) => out := SeriesMaxStep(k, x);
      case ReadValue(k) => out := StateSnapLoad(k);
      case ReadHistory(k, d) => out := StateHistLoad(k, d, true);
    }

    /** One iteration of the loop: copy, body, commit. */
    method RunPulse(pulse: Pulse) returns (outs: seq<i64>)
      requires Valid() && ValidPulse(plan, pulse)
      modifies ledger, snap
      ensures (ledger[..], outs) == RunOnce(plan, old(ledger[..]), pulse)
    {
      CopyLedgerToSnap();
      ghost var start, body := ledger[..], pulse.body;
      outs := [];
      assert body[0..] == body;
      for i := 0 to |pulse.body|
        invariant snap[..] == start
        invariant RunBody(plan, start, start, body).0 == RunBody(plan, start, ledger[..], body[i..]).0
        invariant RunBody(plan, start, start, body).1 == outs + RunBody(plan, start, ledger[..], body[i..]).1
      {
        var out := Step(pulse.body[i]);
        assert body[i..][1..] == body[i + 1..];
        ghost var rest := RunBody(plan, start, ledger[..], body[i + 1..]).1;
        assert outs + ([out] + rest) == outs + [out] + rest;
        outs := outs + [out];
      }
      assert body[|body|..] == [];
      assert outs + [] == outs;
      CommitEach(pulse.commits);
    }

    /** The whole loop. */
    method RunAll(pulses: seq<Pulse>) returns (outs: seq<seq<i64>>)
      requires Valid() && ValidPulses(plan, pulses)
      modifies ledger, snap
      ensures (ledger[..], outs) == Run(plan, old(ledger[..]), pulses)
    {
      outs := [];
      ghost var start := ledger[..];
      assert pulses[0..] == pulses;
      for i := 0 to |pulses|
        invariant Run(plan, start, pulses).0 == Run(plan, ledger[..], pulses[i..]).0
        invariant Run(plan, start, pulses).1 == outs + Run(plan, ledger[..], pulses[i..]).1
      {
        assert ValidPulse(plan, pulses[i]);
        var out := RunPulse(pulses[i]);
        assert pulses[i..][1..] == pulses[i + 1..];
        ghost var rest := Run(plan, ledger[..], pulses[i + 1..]).1;
        assert outs + ([out] + rest) == outs + [out] + rest;
        outs := outs + [out];
      }
      assert pulses[|pulses|..] == [];
      assert outs + [] == outs;
    }
  }
}
