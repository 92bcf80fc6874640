/** The bounded ring with deferred commit. Direct writes go to the ring at once; pending
    writes go to a second ring of the same capacity, which overwrites its own oldest entries;
    a commit replays what is left of them. Cells that were never written hold nothing, and a
    load of such a cell yields None. Positions are unsigned 64-bit and wrap. */
module RingSpec {
  import opened Wrappers
  import opened Int64
  import opened Residues

  type u64 = x: int | 0 <= x < TWO64

  type RingCells = seq<Option<i64>>

  datatype Ring = Ring(cap: u64, cells: RingCells, head: u64, pending: RingCells, count: u64) {
    predicate Shaped() {
      0 < cap && |cells| == cap && |pending| == cap
    }
  }

  function Next(pos: u64): u64 {
    (pos + 1) % TWO64
  }

  // ----- the operations, as the emitted code performs them -----

  function Init(cap: u64, v: i64): (r: Ring)
    requires cap > 0
    ensures r.Shaped()
  {
    Ring(cap, seq(cap, _ => None)[0 := Some(v)], 1, seq(cap, _ => None), 0)
  }

  function Push(r: Ring, v: Option<i64>): (r': Ring)
    requires r.Shaped()
    ensures r'.Shaped() && r'.cap == r.cap && r'.count == r.count
  {
    r.(cells := r.cells[r.head % r.cap := v], head := Next(r.head))
  }

  function Write(r: Ring, v: i64): (r': Ring)
    requires r.Shaped()
    ensures r'.Shaped() && r'.cap == r.cap
  {
    Push(r, Some(v))
  }

  function WritePending(r: Ring, v: i64): (r': Ring)
    requires r.Shaped()
    ensures r'.Shaped() && r'.cap == r.cap
  {
    r.(pending := r.pending[r.count % r.cap := Some(v)], count := Next(r.count))
  }

  /** The commit loop from pending index i on. */
  function Replay(r: Ring, i: u64): (r': Ring)
    requires r.Shaped()
    ensures r'.Shaped() && r'.cap == r.cap
    decreases r.count - i
  {
    if i < r.count then Replay(Push(r, r.pending[i % r.cap]), i + 1) else r
  }

  function CommitStart(r: Ring): u64 {
    if r.count > r.cap then r.count - r.cap else 0
  }

  function Commit(r: Ring): (r': Ring)
    requires r.Shaped()
    ensures r'.Shaped() && r'.cap == r.cap
  {
    Replay(r, CommitStart(r)).(count := 0)
  }

  /** A guarded read `depth` steps back; the load itself always happens. */
  function Read(r: Ring, depth: u64): Option<i64>
    requires r.Shaped()
  {
    var has := r.head >= depth;
    var cell := r.cells[if has then (r.head - depth) % r.cap else 0];
    if cell.None? then None else Some(if has then cell.value else 0)
  }

  // ----- what a ring stands for -----

  /** Position `pos` of a ring of cells behaves like the end of the sequence s: the newest
      cap entries are in place, and the position says how many there are. */
  ghost predicate Mirrors(cells: RingCells, pos: int, s: seq<i64>) {
    && 0 < |cells| && 0 <= pos
    && Min(pos, |cells|) == Min(|s|, |cells|)
    && forall d: nat :: 1 <= d <= Min(pos, |cells|) ==> NewestAt(cells, pos, d, s)
  }

  ghost predicate NewestAt(cells: RingCells, pos: int, d: nat, s: seq<i64>)
    requires 0 < |cells| && 1 <= d <= pos && d <= |s|
  {
    cells[(pos - d) % |cells|] == Some(s[|s| - d])
  }

  function Min(a: int, b: int): int {
    if a < b then a else b
  }

  /** The ring stands for the committed values `log` and the values `pend` waiting. */
  ghost predicate Represents(r: Ring, log: seq<i64>, pend: seq<i64>) {
    && r.Shaped() && log != []
    && Mirrors(r.cells, r.head, log)
    && Mirrors(r.pending, r.count, pend) && r.count == |pend|
    && r.cells[0].Some?
  }

  lemma InitRepresents(cap: u64, v: i64)
    requires cap > 0
    ensures Represents(Init(cap, v), [v], [])
  {
    var cells := Init(cap, v).cells;
    forall d: nat | 1 <= d <= Min(1, cap) ensures NewestAt(cells, 1, d, [v]) {
      ModUnique(0, 0, 0, cap);
    }
  }

  lemma PushMirrors(cells: RingCells, pos: nat, s: seq<i64>, v: i64)
    requires Mirrors(cells, pos, s)
    ensures Mirrors(cells[pos % |cells| := Some(v)], pos + 1, s + [v])
  {
    var cap, pos', s' := |cells|, pos + 1, s + [v];
    var cells' := cells[pos % cap := Some(v)];
    forall d: nat | 1 <= d <= Min(pos', cap) ensures NewestAt(cells', pos', d, s') {
      if d > 1 {
        ModNear(pos' - d, pos, cap);
        assert NewestAt(cells, pos, d - 1, s);
      }
    }
  }

  /** Only the newest cap entries matter. */
  lemma MirrorsSuffix(cells: RingCells, pos: nat, s: seq<i64>, t: seq<i64>)
    requires Mirrors(cells, pos, t) && |t| >= |cells| && |s| >= |cells|
    requires s[|s| - |cells|..] == t[|t| - |cells|..]
    ensures Mirrors(cells, pos, s)
  {
    var cap := |cells|;
    forall d: nat | 1 <= d <= Min(pos, cap) ensures NewestAt(cells, pos, d, s) {
      assert NewestAt(cells, pos, d, t);
      assert s[|s| - d] == s[|s| - cap..][cap - d] == t[|t| - cap..][cap - d] == t[|t| - d];
    }
  }

  // ----- every operation keeps the relation, exactly until a position wraps -----

  lemma WriteKeeps(r: Ring, log: seq<i64>, pend: seq<i64>, v: i64)
    requires Represents(r, log, pend) && r.head + 1 < TWO64
    ensures Represents(Write(r, v), log + [v], pend)
  {
    PushMirrors(r.cells, r.head, log, v);
  }

  lemma WriteExact(r: Ring, log: seq<i64>, pend: seq<i64>, v: i64)
    requires Represents(r, log, pend)
    ensures Represents(Write(r, v), log + [v], pend) <==> r.head + 1 < TWO64
  {
    if r.head + 1 < TWO64 {
      WriteKeeps(r, log, pend, v);
    }
  }

  lemma WritePendingExact(r: Ring, log: seq<i64>, pend: seq<i64>, v: i64)
    requires Represents(r, log, pend)
    ensures Represents(WritePending(r, v), log, pend + [v]) <==> r.count + 1 < TWO64
  {
    if r.count + 1 < TWO64 {
      PushMirrors(r.pending, r.count, pend, v);
    }
  }

  lemma PendingStillThere(r: Ring, log: seq<i64>, pend: seq<i64>, i: u64)
    requires Represents(r, log, pend) && r.count - r.cap <= i < r.count
    ensures r.pending[i % r.cap] == Some(pend[i])
  {
    assert NewestAt(r.pending, r.count, r.count - i, pend);
  }

  /** Replaying from i appends the pending values from i on, when they are all still there. */
  lemma {:induction false} ReplayMirrors(r: Ring, log: seq<i64>, pend: seq<i64>, i: u64)
    requires Represents(r, log, pend)
    requires r.count - r.cap <= i <= r.count && r.head + (r.count - i) < TWO64
    ensures Represents(Replay(r, i), log + pend[i..], pend)
    decreases r.count - i
  {
    if i < r.count {
      PendingStillThere(r, log, pend, i);
      WriteKeeps(r, log, pend, pend[i]);
      WriteMoves(r, pend[i]);
      var r', log' := Write(r, pend[i]), log + [pend[i]];
      ReplayMirrors(r', log', pend, i + 1);
      assert log' + pend[i + 1..] == log + pend[i..];
    } else {
      assert log + pend[i..] == log;
    }
  }

  lemma WriteMoves(r: Ring, v: i64)
    requires r.Shaped() && r.head + 1 < TWO64
    ensures var r' := Write(r, v);
            r'.head == r.head + 1 && r'.count == r.count && r'.cap == r.cap && r'.pending == r.pending
  {
  }

  function Advance(r: Ring): nat {
    if r.count > r.cap then r.cap else r.count
  }

  /** One round of the commit loop. */
  lemma ReplayStep(r: Ring, i: u64)
    requires r.Shaped() && i < r.count
    ensures var r' := Push(r, r.pending[i % r.cap]);
            Replay(r, i) == Replay(r', i + 1) && r'.head == Next(r.head) && r'.count == r.count
  {
  }

  lemma {:induction false} ReplayHead(r: Ring, i: u64)
    requires r.Shaped() && i <= r.count
    ensures Replay(r, i).head == (r.head + (r.count - i)) % TWO64
    decreases r.count - i
  {
    if i < r.count {
      ReplayStep(r, i);
      ReplayHead(Push(r, r.pending[i % r.cap]), i + 1);
      ModOfStep(r.head, r.count - i - 1, TWO64);
    } else {
      ModUnique(r.head, 0, r.head, TWO64);
    }
  }

  /** A commit makes every pending value part of the log, although only the newest cap of them
      are replayed and the head advances by at most cap. */
  lemma CommitKeeps(r: Ring, log: seq<i64>, pend: seq<i64>)
    requires Represents(r, log, pend) && r.head + Advance(r) < TWO64
    ensures Represents(Commit(r), log + pend, [])
  {
    var start := CommitStart(r);
    ReplayMirrors(r, log, pend, start);
    var after, whole, kept := Replay(r, start), log + pend, log + pend[start..];
    if start > 0 {
      assert whole[|whole| - r.cap..] == pend[start..] == kept[|kept| - r.cap..];
      MirrorsSuffix(after.cells, after.head, whole, kept);
    }
    assert Mirrors(after.pending, 0, []);
  }

  lemma CommitHead(r: Ring)
    requires r.Shaped()
    ensures Commit(r).head == (r.head + Advance(r)) % TWO64
    ensures Commit(r).count == 0
  {
    ReplayHead(r, CommitStart(r));
  }

  lemma CommitExact(r: Ring, log: seq<i64>, pend: seq<i64>)
    requires Represents(r, log, pend)
    ensures Represents(Commit(r), log + pend, []) <==> r.head + Advance(r) < TWO64
  {
    if r.head + Advance(r) < TWO64 {
      CommitKeeps(r, log, pend);
    } else {
      CommitHead(r);
      ModUnique(r.head + Advance(r), 1, r.head + Advance(r) - TWO64, TWO64);
    }
  }

  // ----- reading -----

  /** What a depth-d read means: the d-th newest committed value, 0 if there is none. */
  function NewestOrZero(log: seq<i64>, d: nat): i64 {
    if 1 <= d <= |log| then log[|log| - d] else 0
  }

  lemma ReadRefines(r: Ring, log: seq<i64>, pend: seq<i64>, d: u64)
    requires Represents(r, log, pend) && 1 <= d <= r.cap
    ensures Read(r, d) == Some(NewestOrZero(log, d))
  {
    if d <= r.head {
      assert NewestAt(r.cells, r.head, d, log);
    }
  }

  /** No depth, not even one beyond the capacity, loads a cell that was never written. */
  lemma ReadTouchesWrittenCell(r: Ring, log: seq<i64>, pend: seq<i64>, d: u64)
    requires Represents(r, log, pend) && 1 <= d
    ensures Read(r, d).Some?
  {
    if d <= r.head {
      var k := (d - 1) / r.cap;
      var d' := (d - 1) % r.cap + 1;
      assert d - 1 == k * r.cap + (d' - 1);
      var q := (r.head - d') / r.cap;
      ModUnique(r.head - d, q - k, (r.head - d') % r.cap, r.cap);
      MultipleBounds(k, r.cap);
      assert NewestAt(r.cells, r.head, d', log);
    }
  }

  // ----- runs -----

  datatype Op = Direct(v: i64) | Pending(v: i64) | CommitAll

  function Step(r: Ring, op: Op): (r': Ring)
    requires r.Shaped()
    ensures r'.Shaped() && r'.cap == r.cap
  {
    match op
    case Direct(v) => Write(r, v)
    case Pending(v) => WritePending(r, v)
    case CommitAll => Commit(r)
  }

  function Run(r: Ring, ops: seq<Op>): (r': Ring)
    requires r.Shaped()
    ensures r'.Shaped() && r'.cap == r.cap
    decreases |ops|
  {
    if ops == [] then r else Run(Step(r, ops[0]), ops[1..])
  }

  /** The plain form: a log and a list of waiting values. */
  datatype Plain = Plain(log: seq<i64>, pend: seq<i64>)

  function PlainStep(p: Plain, op: Op): Plain {
    match op
    case Direct(v) => Plain(p.log + [v], p.pend)
    case Pending(v) => Plain(p.log, p.pend + [v])
    case CommitAll => Plain(p.log + p.pend, [])
  }

  function PlainRun(p: Plain, ops: seq<Op>): Plain
    decreases |ops|
  {
    if ops == [] then p else PlainRun(PlainStep(p, ops[0]), ops[1..])
  }

  /** Number of values written, directly or pending. */
  function Writes(ops: seq<Op>): nat
    decreases |ops|
  {
    if ops == [] then 0 else (if ops[0].CommitAll? then 0 else 1) + Writes(ops[1..])
  }

  lemma StepRefines(r: Ring, p: Plain, op: Op)
    requires Represents(r, p.log, p.pend)
    requires r.head + r.count + (if op.CommitAll? then 0 else 1) < TWO64
    ensures var r', p' := Step(r, op), PlainStep(p, op);
            && Represents(r', p'.log, p'.pend)
            && r'.head + r'.count <= r.head + r.count + if op.CommitAll? then 0 else 1
  {
    match op
    case Direct(v) =>
      WriteKeeps(r, p.log, p.pend, v);
      WriteMoves(r, v);
    case Pending(v) => WritePendingExact(r, p.log, p.pend, v);
    case CommitAll =>
      CommitKeeps(r, p.log, p.pend);
      CommitHead(r);
      ModUnique(r.head + Advance(r), 0, r.head + Advance(r), TWO64);
  }

  lemma {:induction false} RunRefines(r: Ring, p: Plain, ops: seq<Op>)
    requires Represents(r, p.log, p.pend) && r.head + r.count + Writes(ops) < TWO64
    ensures var p' := PlainRun(p, ops); Represents(Run(r, ops), p'.log, p'.pend)
    decreases |ops|
  {
    if ops != [] {
      StepRefines(r, p, ops[0]);
      RunRefines(Step(r, ops[0]), PlainStep(p, ops[0]), ops[1..]);
    }
  }

  /** For every interleaving of direct writes, pending writes and commits that writes fewer
      than 2^64 - 1 values, every read within the capacity returns the d-th newest committed
      value, or 0 when fewer were committed; pending values are not seen. */
  lemma EveryRunReads(cap: u64, v: i64, ops: seq<Op>, d: u64)
    requires cap > 0 && 1 <= d <= cap && 1 + Writes(ops) < TWO64
    ensures Read(Run(Init(cap, v), ops), d) == Some(NewestOrZero(PlainRun(Plain([v], []), ops).log, d))
  {
    InitRepresents(cap, v);
    RunRefines(Init(cap, v), Plain([v], []), ops);
    ReadRefines(Run(Init(cap, v), ops), PlainRun(Plain([v], []), ops).log, PlainRun(Plain([v], []), ops).pend, d);
  }

  function Ones(n: nat): seq<Op> {
    seq(n, _ => Direct(1))
  }

  lemma {:induction false} ManyDirects(r: Ring, n: nat)
    requires r.Shaped() && r.cells[0].Some?
    ensures var r' := Run(r, Ones(n));
            r'.head == (r.head + n) % TWO64 && r'.cells[0].Some?
    decreases n
  {
    if n == 0 {
      ModUnique(r.head, 0, r.head, TWO64);
    } else {
      assert Ones(n)[0] == Direct(1) && Ones(n)[1..] == Ones(n - 1);
      ManyDirects(Write(r, 1), n - 1);
      ModOfAdd(r.head + 1, n - 1, TWO64);
    }
  }

  /** One write more and the head wraps to 0: every value written was 1, yet a read gives 0. */
  lemma WrapLosesHistory(cap: u64, d: u64)
    requires 1 <= d <= cap
    ensures Read(Run(Init(cap, 1), Ones(TWO64 - 1)), d) == Some(0)
  {
    ManyDirects(Init(cap, 1), TWO64 - 1);
    ModUnique(TWO64, 1, 0, TWO64);
  }

  // ----- commit against direct writes -----

  function WriteEach(r: Ring, vs: seq<i64>): (r': Ring)
    requires r.Shaped()
    ensures r'.Shaped() && r'.cap == r.cap
    decreases |vs|
  {
    if vs == [] then r else WriteEach(Write(r, vs[0]), vs[1..])
  }

  lemma {:induction false} WriteEachRefines(r: Ring, log: seq<i64>, pend: seq<i64>, vs: seq<i64>)
    requires Represents(r, log, pend) && r.head + |vs| < TWO64
    ensures Represents(WriteEach(r, vs), log + vs, pend)
    decreases |vs|
  {
    if vs == [] {
      assert log + vs == log;
    } else {
      WriteExact(r, log, pend, vs[0]);
      WriteEachRefines(Write(r, vs[0]), log + [vs[0]], pend, vs[1..]);
      assert log + [vs[0]] + vs[1..] == log + vs;
    }
  }

  /** A commit reads like applying every pending write directly, even when more values were
      pending than the ring holds. */
  lemma CommitReadsLikeDirectWrites(r: Ring, log: seq<i64>, pend: seq<i64>, d: u64)
    requires Represents(r, log, pend) && 1 <= d <= r.cap && r.head + |pend| < TWO64
    ensures Read(Commit(r), d) == Read(WriteEach(r, pend), d)
  {
    CommitKeeps(r, log, pend);
    CommitHead(r);
    ReadRefines(Commit(r), log + pend, [], d);
    WriteEachRefines(r, log, pend, pend);
    ReadRefines(WriteEach(r, pend), log + pend, pend, d);
  }

  // ----- several rings -----

  type Rings = map<string, Ring>

  ghost predicate AllShaped(rings: Rings) {
    forall x :: x in rings ==> rings[x].Shaped()
  }

  /** Commits the named rings one after the other; a name without a ring is skipped. */
  function CommitNames(rings: Rings, names: seq<string>): (rings': Rings)
    requires AllShaped(rings)
    ensures AllShaped(rings')
    decreases |names|
  {
    if names == [] then rings
    else
      var x := names[0];
      CommitNames(if x in rings then rings[x := Commit(rings[x])] else rings, names[1..])
  }

  lemma {:induction false} CommitNamesPointwise(rings: Rings, names: seq<string>)
    requires AllShaped(rings) && forall i, j :: 0 <= i < j < |names| ==> names[i] != names[j]
    ensures CommitNames(rings, names).Keys == rings.Keys
    ensures forall x :: x in rings ==>
              CommitNames(rings, names)[x] == if x in names then Commit(rings[x]) else rings[x]
    decreases |names|
  {
    if names != [] {
      var x := names[0];
      var rings1 := if x in rings then rings[x := Commit(rings[x])] else rings;
      CommitNamesPointwise(rings1, names[1..]);
      assert x !in names[1..];
      assert forall y :: y in names <==> y == x || y in names[1..];
    }
  }

  /** The order in which the rings are committed does not matter. */
  lemma CommitNamesOrderIrrelevant(rings: Rings, names: seq<string>, names': seq<string>)
    requires AllShaped(rings)
    requires forall i, j :: 0 <= i < j < |names| ==> names[i] != names[j]
    requires forall i, j :: 0 <= i < j < |names'| ==> names'[i] != names'[j]
    requires forall x :: x in names <==> x in names'
    ensures CommitNames(rings, names) == CommitNames(rings, names')
  {
    CommitNamesPointwise(rings, names);
    CommitNamesPointwise(rings, names');
  }
}
