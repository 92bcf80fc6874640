/** One step of the emitted pulse code on the words of the ledger, and what the words mean.
    A slot stands for two sequences: the defined samples it was fed, and the values it has
    held (0 first, then one per commit). `WordOf` writes such a state down as words; every
    step is proved to take the encoding of one state to the encoding of the next, to touch
    no word of any other slot, and to return a value computed from the sequences. */
module PulseSteps {
  import opened Int64
  import opened CursorRing
  import opened PulseLayout

  // ----- the steps, as the emitted code performs them -----

  function Quotient(a: i64, n: int): i64
    requires n >= 1
  {
    TruncDivSmaller(a, n);
    TruncDiv(a, n)
  }

  function NextCount(count: i64, win: nat): i64
    requires win < 0x8000_0000
  {
    if Add(count, 1) < win then Add(count, 1) else win
  }

  function AvgStep(mem: Words, s: Slot, x: i64): (r: (Words, i64))
    requires Placed(s, mem) && s.IsWindow()
    ensures |r.0| == |mem|
  {
    if x == UNDEF then (mem, UNDEF)
    else AvgAt(mem, s, x, URem(Load(mem, CursorOff(s)), s.win))
  }

  /** The average step with the ring cell c selected by the cursor. */
  function AvgAt(mem: Words, s: Slot, x: i64, c: nat): (Words, i64)
    requires Placed(s, mem) && s.IsWindow() && c < s.win
  {
    (AvgStoresAt(mem, s, x, c), AvgResult(AvgSum(mem, s, x, c), NextCount(Load(mem, CountOff(s)), s.win), s.win))
  }

  function AvgSum(mem: Words, s: Slot, x: i64, c: nat): i64
    requires Placed(s, mem) && s.IsWindow() && c < s.win
  {
    Sub(Add(Load(mem, SumOff(s)), x), Load(mem, RingCellOff(s, c)))
  }

  function AvgStoresAt(mem: Words, s: Slot, x: i64, c: nat): Words
    requires Placed(s, mem) && s.IsWindow() && c < s.win
  {
    var cursor, count := Load(mem, CursorOff(s)), Load(mem, CountOff(s));
    var mem1 := Store(mem, RingCellOff(s, c), x);
    var mem2 := Store(mem1, SumOff(s), AvgSum(mem, s, x, c));
    var mem3 := Store(mem2, CursorOff(s), Add(cursor, 1));
    Store(mem3, CountOff(s), NextCount(count, s.win))
  }

  function AvgResult(sum: i64, count: i64, win: nat): i64
    requires win > 0
  {
    if count >= win then Quotient(sum, win) else UNDEF
  }

  /** The ring word k steps behind the cursor. */
  function CellBack(mem: Words, s: Slot, cursor: i64, k: i64): i64
    requires Placed(s, mem) && s.IsWindow()
  {
    Load(mem, RingCellOff(s, URem(Sub(cursor, k), s.win)))
  }

  /** The scan of the window maximum, from step k on. */
  function ScanMax(mem: Words, s: Slot, cursor: i64, k: nat, count: i64, best: i64): i64
    requires Placed(s, mem) && s.IsWindow()
    decreases count - k
  {
    if k < count then
      var cell := CellBack(mem, s, cursor, k);
      ScanMax(mem, s, cursor, k + 1, count, if cell > best then cell else best)
    else best
  }

  function MaxStep(mem: Words, s: Slot, x: i64): (r: (Words, i64))
    requires Placed(s, mem) && s.IsWindow()
    ensures |r.0| == |mem|
  {
    if x == UNDEF then (mem, UNDEF)
    else MaxAt(mem, s, x, URem(Load(mem, CursorOff(s)), s.win))
  }

  function MaxAt(mem: Words, s: Slot, x: i64, c: nat): (Words, i64)
    requires Placed(s, mem) && s.IsWindow() && c < s.win
  {
    var cursor, count := Load(mem, CursorOff(s)), Load(mem, CountOff(s));
    var count' := NextCount(count, s.win);
    var mem1 := Store(mem, RingCellOff(s, c), x);
    var mem2 := Store(mem1, CursorOff(s), Add(cursor, 1));
    var mem3 := Store(mem2, CountOff(s), count');
    var best := ScanMax(mem3, s, Add(cursor, 1), 1, count', x);
    (mem3, if count' < s.win then UNDEF else best)
  }

  function CommitSlot(mem: Words, s: Slot, v: i64): (mem': Words)
    requires Placed(s, mem)
    ensures |mem'| == |mem|
  {
    if s.kind == Acc then Store(mem, s.offset, v)
    else CommitAt(mem, s, v, URem(Load(mem, HistPos(s)), s.win))
  }

  function CommitAt(mem: Words, s: Slot, v: i64, c: nat): Words
    requires Placed(s, mem) && s.kind != Acc && c < s.win
  {
    var last, pos := Load(mem, ValueOff(s)), Load(mem, HistPos(s));
    var mem1 := Store(mem, HistCellOff(s, c), last);
    var mem2 := Store(mem1, HistPos(s), Add(pos, 1));
    Store(mem2, ValueOff(s), v)
  }

  /** Reads the history `back` steps before the write position. */
  function HistLoad(mem: Words, s: Slot, back: int): i64
    requires Placed(s, mem) && s.kind != Acc
  {
    Load(mem, HistCellOff(s, URem(Sub(Load(mem, HistPos(s)), Wrap(back)), s.win)))
  }

  // ----- what the words mean -----

  datatype SlotState = SlotState(samples: seq<i64>, values: seq<i64>) {
    ghost predicate Valid() {
      values != [] && forall i :: 0 <= i < |samples| ==> Defined(samples[i])
    }
  }

  const FRESH: SlotState := SlotState([], [0])

  function Current(st: SlotState): i64
    requires st.Valid()
  {
    st.values[|st.values| - 1]
  }

  /** The values pushed into the history ring: all but the current one. */
  function Past(st: SlotState): seq<i64>
    requires st.Valid()
  {
    st.values[..|st.values| - 1]
  }

  function WarmCount(st: SlotState, win: nat): i64
    requires win < 0x8000_0000
  {
    if |st.samples| < win then |st.samples| else win
  }

  function RingTotal(samples: seq<i64>, win: nat): i64
    requires win > 0
  {
    Wrap(Total(Cells(samples, win)))
  }

  /** The i-th word of a slot in state st. */
  ghost function WordOf(kind: SlotKind, win: nat, st: SlotState, i: nat): i64
    requires st.Valid() && ValidWindow(kind, win) && 8 * i < SlotBytes(kind, win)
  {
    if kind == Acc then Current(st)
    else if kind == Track then
      if i == 0 then Current(st)
      else HistWord(st, win, i - 1)
    else if i < win then Cells(st.samples, win)[i]
    else if i == win then (if kind == WinMax then 0 else RingTotal(st.samples, win))
    else if i == win + 1 then Wrap(|st.samples|)
    else if i == win + 2 then WarmCount(st, win)
    else if i == win + 3 then Current(st)
    else HistWord(st, win, i - win - 4)
  }

  /** The history ring followed by its write position. */
  ghost function HistWord(st: SlotState, win: nat, i: nat): i64
    requires st.Valid() && 1 <= win && i <= win
  {
    if i < win then Cells(Past(st), win)[i] else Wrap(|Past(st)|)
  }

  /** The words of a slot are exactly the encoding of its state. */
  ghost predicate Represents(mem: Words, s: Slot, st: SlotState) {
    && Placed(s, mem) && st.Valid()
    && forall i: nat :: i < SlotSize(s) ==> Get(mem, s, i) == WordOf(s.kind, s.win, st, i)
  }

  // ----- cursors -----

  lemma CursorSelects(m: nat, win: nat)
    requires win > 0
    ensures URem(Wrap(m), win) == CellOf(m, win)
  {
    UnsignedOfWrap(m);
  }

  lemma CursorBackSelects(m: nat, back: int, win: nat)
    requires win > 0
    ensures URem(Sub(Wrap(m), Wrap(back)), win) == CellOf(m - back, win)
  {
    var w: int := Wrap(back);
    WrapWrapAdd(m, -w);
    var k := (back + TWO63) / TWO64;
    assert m - w - (m - back) == k * TWO64;
    assert (k * TWO64) % TWO64 == 0;
    WrapCongruent(m - w, m - back);
    UnsignedOfWrap(m - back);
  }

  lemma CursorNext(m: nat)
    ensures Add(Wrap(m), 1) == Wrap(m + 1)
  {
    WrapWrapAdd(m, 1);
  }

  // ----- feeding a sample -----

  function Sample(st: SlotState, x: i64): SlotState {
    SlotState(st.samples + [x], st.values)
  }

  lemma SumStep(total: int, x: i64, out: i64)
    ensures Sub(Add(Wrap(total), x), out) == Wrap(total + x - out)
  {
    WrapWrapAdd(total, x);
    var o: int := out;
    WrapWrapAdd(total + x, -o);
  }

  /** The running sum follows the ring: add the new word, subtract the one it replaces. */
  lemma SumFollowsRing(samples: seq<i64>, win: nat, x: i64)
    requires win > 0
    ensures Sub(Add(RingTotal(samples, win), x), Cells(samples, win)[CellOf(|samples|, win)])
         == RingTotal(samples + [x], win)
  {
    var cells, c := Cells(samples, win), CellOf(|samples|, win);
    CellsPush(samples, win, x);
    TotalUpdate(cells, c, x);
    SumStep(Total(cells), x, cells[c]);
  }

  lemma CountFollows(st: SlotState, win: nat, x: i64)
    requires 0 < win < 0x8000_0000
    ensures NextCount(WarmCount(st, win), win) == WarmCount(Sample(st, x), win)
  {
    WrapFits(WarmCount(st, win) + 1);
  }

  /** Feeding a sample changes one ring word, the cursor, the count and (averages) the sum. */
  lemma SampleWordOf(kind: SlotKind, win: nat, st: SlotState, x: i64, c: nat, i: nat)
    requires st.Valid() && (kind == WinAvg || kind == WinMax) && ValidWindow(kind, win) && Defined(x)
    requires 8 * i < SlotBytes(kind, win) && c < win
    requires Cells(st.samples + [x], win) == Cells(st.samples, win)[c := x]
    ensures WordOf(kind, win, Sample(st, x), i) ==
            if i == c then x
            else if i == win && kind == WinAvg then RingTotal(st.samples + [x], win)
            else if i == win + 1 then Wrap(|st.samples| + 1)
            else if i == win + 2 then WarmCount(Sample(st, x), win)
            else WordOf(kind, win, st, i)
  {
  }

  lemma WindowFields(mem: Words, s: Slot, st: SlotState)
    requires s.IsWindow() && Represents(mem, s, st)
    ensures Load(mem, CursorOff(s)) == Wrap(|st.samples|)
    ensures Load(mem, CountOff(s)) == WarmCount(st, s.win)
    ensures s.kind == WinAvg ==> Load(mem, SumOff(s)) == RingTotal(st.samples, s.win)
  {
    LoadIsGet(mem, s, s.win);
    LoadIsGet(mem, s, s.win + 1);
    LoadIsGet(mem, s, s.win + 2);
  }

  lemma RingField(mem: Words, s: Slot, st: SlotState, c: nat)
    requires s.IsWindow() && Represents(mem, s, st) && c < s.win
    ensures Aligned(RingCellOff(s, c), mem)
    ensures Load(mem, RingCellOff(s, c)) == Cells(st.samples, s.win)[c]
  {
    LoadIsGet(mem, s, c);
  }

  /** What the average step returns once x is in: the truncated mean of the ring when warm. */
  ghost function AvgOut(samples: seq<i64>, win: nat): i64
    requires win > 0
  {
    if |samples| < win then UNDEF else Quotient(RingTotal(samples, win), win)
  }

  /** The average step as word updates, once the loads are known. */
  lemma AvgStores(mem: Words, s: Slot, x: i64, c: nat, sum: i64, cursor: i64, count: i64)
    requires Placed(s, mem) && s.IsWindow() && c < s.win
    requires AvgSum(mem, s, x, c) == sum
    requires Add(Load(mem, CursorOff(s)), 1) == cursor
    requires NextCount(Load(mem, CountOff(s)), s.win) == count
    ensures AvgStoresAt(mem, s, x, c) ==
            Put(Put(Put(Put(mem, s, c, x), s, s.win, sum), s, s.win + 1, cursor), s, s.win + 2, count)
  {
    var n := s.win;
    StoreIsPut(mem, s, c, x);
    StoreIsPut(Put(mem, s, c, x), s, n, sum);
    StoreIsPut(Put(Put(mem, s, c, x), s, n, sum), s, n + 1, cursor);
    StoreIsPut(Put(Put(Put(mem, s, c, x), s, n, sum), s, n + 1, cursor), s, n + 2, count);
  }

  lemma AvgAtRefines(mem: Words, s: Slot, st: SlotState, x: i64, c: nat)
    requires s.kind == WinAvg && Represents(mem, s, st) && c < s.win && Defined(x)
    requires Cells(st.samples + [x], s.win) == Cells(st.samples, s.win)[c := x]
    requires Sub(Add(RingTotal(st.samples, s.win), x), Cells(st.samples, s.win)[c])
             == RingTotal(st.samples + [x], s.win)
    ensures var (mem', out) := AvgAt(mem, s, x, c);
            && SameOutside(mem, mem', s)
            && Represents(mem', s, Sample(st, x))
            && out == AvgOut(st.samples + [x], s.win)
  {
    var n, m := s.win, |st.samples|;
    WindowFields(mem, s, st);
    RingField(mem, s, st, c);
    CursorNext(m);
    CountFollows(st, n, x);
    AvgStores(mem, s, x, c, RingTotal(st.samples + [x], n), Wrap(m + 1), WarmCount(Sample(st, x), n));
    forall i: nat | i < SlotSize(s)
      ensures Get(AvgAt(mem, s, x, c).0, s, i) == WordOf(s.kind, n, Sample(st, x), i)
    {
      SampleWordOf(s.kind, n, st, x, c, i);
    }
  }

  lemma AvgRefines(mem: Words, s: Slot, st: SlotState, x: i64)
    requires s.kind == WinAvg && Represents(mem, s, st) && Defined(x)
    ensures var (mem', out) := AvgStep(mem, s, x);
            && SameOutside(mem, mem', s)
            && Represents(mem', s, Sample(st, x))
            && out == AvgOut(st.samples + [x], s.win)
  {
    WindowFields(mem, s, st);
    CursorSelects(|st.samples|, s.win);
    SumFollowsRing(st.samples, s.win, x);
    CellsPush(st.samples, s.win, x);
    AvgAtRefines(mem, s, st, x, CellOf(|st.samples|, s.win));
  }

  // ----- the maximum -----

  /** The largest of the newest k samples as the ring recalls them, and of at least one. */
  function LargestRecalled(samples: seq<i64>, win: nat, k: nat): i64
    requires win > 0
  {
    Largest(Recalled(samples, win, if k == 0 then 1 else k))
  }

  lemma LargestRecalledGrows(samples: seq<i64>, win: nat, k: nat)
    requires win > 0 && 1 <= k
    ensures var x, best := Cells(samples, win)[CellOf(|samples| - k, win)], LargestRecalled(samples, win, k - 1);
            LargestRecalled(samples, win, k) == if x > best then x else best
  {
    var x := Cells(samples, win)[CellOf(|samples| - k, win)];
    var rest := Recalled(samples, win, k - 1);
    assert Recalled(samples, win, k) == [x] + rest && ([x] + rest)[1..] == rest;
  }

  lemma LargestRecalledOne(samples: seq<i64>, win: nat)
    requires win > 0 && samples != []
    ensures LargestRecalled(samples, win, 0) == samples[|samples| - 1]
  {
    CellKeeps(samples, win, |samples| - 1);
    assert Recalled(samples, win, 0) == [];
  }

  lemma ScanCell(mem: Words, s: Slot, st: SlotState, k: nat)
    requires s.IsWindow() && Represents(mem, s, st) && k <= s.win
    ensures CellBack(mem, s, Wrap(|st.samples|), k) == Cells(st.samples, s.win)[CellOf(|st.samples| - k, s.win)]
  {
    RingField(mem, s, st, CellOf(|st.samples| - k, s.win));
    CursorBackSelects(|st.samples|, k, s.win);
    WrapFits(k);
  }

  /** The scan is a running maximum over the words 1, 2, ..., count - 1 steps back. */
  lemma {:induction false} ScanFolds(mem: Words, s: Slot, cursor: i64, k: nat, count: nat, bests: seq<i64>)
    requires Placed(s, mem) && s.IsWindow() && 1 <= k <= count <= s.win + 1 && count <= |bests|
    requires forall j: nat :: 1 <= j < count ==>
               bests[j] == var cell := CellBack(mem, s, cursor, j); if cell > bests[j - 1] then cell else bests[j - 1]
    ensures ScanMax(mem, s, cursor, k, count, bests[k - 1]) == bests[count - 1]
    decreases count - k
  {
    if k < count {
      ScanFolds(mem, s, cursor, k + 1, count, bests);
    }
  }

  lemma RecallStep(mem: Words, s: Slot, st: SlotState, k: nat)
    requires s.IsWindow() && Represents(mem, s, st) && 1 <= k <= s.win
    ensures var cell, best := CellBack(mem, s, Wrap(|st.samples|), k), LargestRecalled(st.samples, s.win, k - 1);
            LargestRecalled(st.samples, s.win, k) == if cell > best then cell else best
  {
    assert CellBack(mem, s, Wrap(|st.samples|), k) == Cells(st.samples, s.win)[CellOf(|st.samples| - k, s.win)] by {
      ScanCell(mem, s, st, k);
    }
    LargestRecalledGrows(st.samples, s.win, k);
  }

  lemma ScanIsLargest(mem: Words, s: Slot, st: SlotState, count: nat)
    requires s.IsWindow() && Represents(mem, s, st) && 1 <= count <= s.win + 1 && st.samples != []
    ensures ScanMax(mem, s, Wrap(|st.samples|), 1, count, st.samples[|st.samples| - 1])
         == LargestRecalled(st.samples, s.win, count - 1)
  {
    var bests := seq(count, k requires k >= 0 => LargestRecalled(st.samples, s.win, k));
    forall k: nat | 1 <= k < count
      ensures bests[k] == var cell := CellBack(mem, s, Wrap(|st.samples|), k);
                          if cell > bests[k - 1] then cell else bests[k - 1]
    {
      RecallStep(mem, s, st, k);
    }
    LargestRecalledOne(st.samples, s.win);
    ScanFolds(mem, s, Wrap(|st.samples|), 1, count, bests);
  }

  /** The emitted scan stops before the oldest sample of the window; with one more step it
      would give the maximum of all of them. */
  lemma OneMoreStepScansAll(mem: Words, s: Slot, st: SlotState)
    requires s.IsWindow() && Represents(mem, s, st) && s.win <= |st.samples|
    requires NewestIntact(|st.samples|, s.win, s.win)
    ensures ScanMax(mem, s, Wrap(|st.samples|), 1, s.win + 1, st.samples[|st.samples| - 1])
         == Largest(Window(st.samples, s.win))
  {
    ScanIsLargest(mem, s, st, s.win + 1);
    RecalledWindow(st.samples, s.win, s.win);
  }

  /** What the maximum step returns once x is in: the scan leaves out the oldest sample of a
      window of two or more. */
  ghost function MaxOut(samples: seq<i64>, win: nat): i64
    requires win > 0
  {
    if |samples| < win then UNDEF else LargestRecalled(samples, win, win - 1)
  }

  lemma MaxStores(mem: Words, s: Slot, x: i64, c: nat, cursor: i64, count: i64)
    requires Placed(s, mem) && s.IsWindow() && c < s.win
    requires Add(Load(mem, CursorOff(s)), 1) == cursor
    requires NextCount(Load(mem, CountOff(s)), s.win) == count
    ensures var mem' := Put(Put(Put(mem, s, c, x), s, s.win + 1, cursor), s, s.win + 2, count);
            && MaxAt(mem, s, x, c).0 == mem'
            && MaxAt(mem, s, x, c).1 == if count < s.win then UNDEF else ScanMax(mem', s, cursor, 1, count, x)
  {
    var n := s.win;
    StoreIsPut(mem, s, c, x);
    StoreIsPut(Put(mem, s, c, x), s, n + 1, cursor);
    StoreIsPut(Put(Put(mem, s, c, x), s, n + 1, cursor), s, n + 2, count);
  }

  lemma MaxAtRefines(mem: Words, s: Slot, st: SlotState, x: i64, c: nat)
    requires s.kind == WinMax && Represents(mem, s, st) && c < s.win && Defined(x)
    requires Cells(st.samples + [x], s.win) == Cells(st.samples, s.win)[c := x]
    ensures var (mem', out) := MaxAt(mem, s, x, c);
            && SameOutside(mem, mem', s)
            && Represents(mem', s, Sample(st, x))
            && out == if |st.samples| + 1 < s.win then UNDEF
                      else ScanMax(mem', s, Wrap(|st.samples| + 1), 1, s.win, x)
  {
    var n, m := s.win, |st.samples|;
    WindowFields(mem, s, st);
    CursorNext(m);
    CountFollows(st, n, x);
    MaxStores(mem, s, x, c, Wrap(m + 1), WarmCount(Sample(st, x), n));
    forall i: nat | i < SlotSize(s)
      ensures Get(MaxAt(mem, s, x, c).0, s, i) == WordOf(s.kind, n, Sample(st, x), i)
    {
      SampleWordOf(s.kind, n, st, x, c, i);
    }
  }

  lemma MaxRefines(mem: Words, s: Slot, st: SlotState, x: i64)
    requires s.kind == WinMax && Represents(mem, s, st) && Defined(x)
    ensures var (mem', out) := MaxStep(mem, s, x);
            && SameOutside(mem, mem', s)
            && Represents(mem', s, Sample(st, x))
            && out == MaxOut(st.samples + [x], s.win)
  {
    var n, m := s.win, |st.samples|;
    WindowFields(mem, s, st);
    CursorSelects(m, n);
    CellsPush(st.samples, n, x);
    MaxAtRefines(mem, s, st, x, CellOf(m, n));
    if m + 1 >= n {
      ScanIsLargest(MaxStep(mem, s, x).0, s, Sample(st, x), n);
    }
  }

  // ----- committing -----

  function Hold(st: SlotState, v: i64): SlotState {
    SlotState(st.samples, st.values + [v])
  }

  /** The word before the history ring of a slot with history is its current value. */
  function HistBase(s: Slot): nat {
    if s.kind == Track then 1 else s.win + 4
  }

  lemma HistFields(mem: Words, s: Slot, st: SlotState)
    requires s.kind != Acc && Represents(mem, s, st)
    ensures Load(mem, HistPos(s)) == Wrap(|Past(st)|)
    ensures Load(mem, ValueOff(s)) == Current(st)
  {
    LoadIsGet(mem, s, HistBase(s) - 1);
    LoadIsGet(mem, s, HistBase(s) + s.win);
  }

  lemma HistCell(mem: Words, s: Slot, st: SlotState, c: nat)
    requires s.kind != Acc && Represents(mem, s, st) && c < s.win
    ensures Aligned(HistCellOff(s, c), mem)
    ensures Load(mem, HistCellOff(s, c)) == Cells(Past(st), s.win)[c]
  {
    LoadIsGet(mem, s, HistBase(s) + c);
  }

  /** Committing changes one history word, the write position and the current value. */
  lemma HoldWordOf(s: Slot, st: SlotState, v: i64, c: nat, i: nat)
    requires st.Valid() && s.kind != Acc && ValidWindow(s.kind, s.win) && i < SlotSize(s) && c < s.win
    requires Cells(Past(st) + [Current(st)], s.win) == Cells(Past(st), s.win)[c := Current(st)]
    ensures WordOf(s.kind, s.win, Hold(st, v), i) ==
            if i == HistBase(s) - 1 then v
            else if i == HistBase(s) + c then Current(st)
            else if i == HistBase(s) + s.win then Wrap(|Past(st)| + 1)
            else WordOf(s.kind, s.win, st, i)
  {
    assert Past(Hold(st, v)) == Past(st) + [Current(st)];
  }

  lemma CommitStores(mem: Words, s: Slot, v: i64, c: nat, last: i64, pos: i64)
    requires Placed(s, mem) && s.kind != Acc && c < s.win
    requires Load(mem, ValueOff(s)) == last
    requires Add(Load(mem, HistPos(s)), 1) == pos
    ensures CommitAt(mem, s, v, c) ==
            Put(Put(Put(mem, s, HistBase(s) + c, last), s, HistBase(s) + s.win, pos), s, HistBase(s) - 1, v)
  {
    var b, n := HistBase(s), s.win;
    StoreIsPut(mem, s, b + c, last);
    StoreIsPut(Put(mem, s, b + c, last), s, b + n, pos);
    StoreIsPut(Put(Put(mem, s, b + c, last), s, b + n, pos), s, b - 1, v);
  }

  lemma CommitAtRefines(mem: Words, s: Slot, st: SlotState, v: i64, c: nat)
    requires s.kind != Acc && Represents(mem, s, st) && c < s.win
    requires Cells(Past(st) + [Current(st)], s.win) == Cells(Past(st), s.win)[c := Current(st)]
    ensures SameOutside(mem, CommitAt(mem, s, v, c), s)
    ensures Represents(CommitAt(mem, s, v, c), s, Hold(st, v))
  {
    var n, m := s.win, |Past(st)|;
    HistFields(mem, s, st);
    CursorNext(m);
    CommitStores(mem, s, v, c, Current(st), Wrap(m + 1));
    forall i: nat | i < SlotSize(s)
      ensures Get(CommitAt(mem, s, v, c), s, i) == WordOf(s.kind, n, Hold(st, v), i)
    {
      HoldWordOf(s, st, v, c, i);
    }
  }

  lemma CommitRefines(mem: Words, s: Slot, st: SlotState, v: i64)
    requires Represents(mem, s, st)
    ensures SameOutside(mem, CommitSlot(mem, s, v), s)
    ensures Represents(CommitSlot(mem, s, v), s, Hold(st, v))
  {
    if s.kind == Acc {
      StoreIsPut(mem, s, 0, v);
    } else {
      HistFields(mem, s, st);
      CursorSelects(|Past(st)|, s.win);
      CellsPush(Past(st), s.win, Current(st));
      CommitAtRefines(mem, s, st, v, CellOf(|Past(st)|, s.win));
    }
  }

  // ----- reading -----

  lemma ValueRefines(mem: Words, s: Slot, st: SlotState)
    requires Represents(mem, s, st)
    ensures Load(mem, ValueOff(s)) == Current(st)
  {
    if s.kind == Acc {
      LoadIsGet(mem, s, 0);
    } else {
      HistFields(mem, s, st);
    }
  }

  /** What a history read gives that goes `back` steps behind the write position: the last value
      pushed into the cell it selects, or 0 if there is none. Values are pushed when the next
      one is committed, so of m + 1 values m are in the ring. */
  function HistValue(values: seq<i64>, win: int, back: int): i64
    requires values != [] && 0 < win <= TWO64
  {
    var m := |values| - 1;
    var k := LastWrite(m, win, CellOf(m - back, win));
    if k < 0 then 0 else values[k]
  }

  lemma HistValueInRing(st: SlotState, win: int, back: int)
    requires st.Valid() && 0 < win <= TWO64
    ensures Cells(Past(st), win)[CellOf(|Past(st)| - back, win)] == HistValue(st.values, win, back)
  {
    CellHolds(Past(st), win, CellOf(|Past(st)| - back, win));
  }

  /** Any read of any depth, wrapped or below zero, gives that. */
  lemma HistRefines(mem: Words, s: Slot, st: SlotState, back: int)
    requires s.kind != Acc && Represents(mem, s, st)
    ensures HistLoad(mem, s, back) == Cells(Past(st), s.win)[CellOf(|Past(st)| - back, s.win)]
    ensures HistLoad(mem, s, back) == HistValue(st.values, s.win, back)
  {
    var c := CellOf(|Past(st)| - back, s.win);
    HistFields(mem, s, st);
    CursorBackSelects(|Past(st)|, back, s.win);
    HistCell(mem, s, st, c);
    HistValueInRing(st, s.win, back);
  }

  /** What that is, for reads within the window: v_(m - back) while the cell is intact, and beyond
      what was pushed one of the oldest values or 0; v_0 or 0 for windows of suitable length. */
  ghost predicate ReadsBack(values: seq<i64>, win: int, back: nat, out: i64)
    requires values != [] && 0 < win <= TWO64
  {
    var m := |values| - 1;
    && (1 <= back <= win && back <= m && Intact(m, back, win) ==> out == values[m - back])
    && (m < back <= win ==> out == if EarlyCell(m, back, win) < m then values[EarlyCell(m, back, win)] else 0)
    && (m < back <= win && TWO64 % win <= 1 ==> out == 0 || out == values[0])
  }

  lemma HistReadsBack(values: seq<i64>, win: int, back: nat, out: i64)
    requires values != [] && 0 < win <= TWO64 && out == HistValue(values, win, back)
    ensures ReadsBack(values, win, back, out)
  {
    var m := |values| - 1;
    var past := values[..m];
    CellHolds(past, win, CellOf(m - back, win));
    if 1 <= back <= win && back <= m && Intact(m, back, win) {
      ReadBackExact(m, back, win);
      assert Cells(past, win)[CellOf(m - back, win)] == past[m - back];
    }
    if m < back <= win {
      EarlyRead(past, back, win);
      EarlyReadsAreZeroExactly(win);
    }
  }

  lemma HistReadsValue(mem: Words, s: Slot, st: SlotState, back: nat)
    requires s.kind != Acc && Represents(mem, s, st)
    ensures ReadsBack(st.values, s.win, back, HistLoad(mem, s, back))
  {
    HistRefines(mem, s, st, back);
    HistReadsBack(st.values, s.win, back, HistLoad(mem, s, back));
  }

  // ----- what the results mean -----

  lemma TotalOfOne(samples: seq<i64>)
    requires samples != []
    ensures Cells(samples, 1) == [samples[|samples| - 1]]
    ensures Total(Cells(samples, 1)) == samples[|samples| - 1]
  {
    assert Cells(samples, 1) == [samples[|samples| - 1]];
    assert Total([]) == 0;
  }

  /** A warm average is never the sentinel. */
  lemma AvgUndefExactlyWhenCold(samples: seq<i64>, win: nat)
    requires 0 < win < 0x8000_0000 && forall i :: 0 <= i < |samples| ==> Defined(samples[i])
    ensures AvgOut(samples, win) == UNDEF <==> |samples| < win
  {
    if |samples| >= win {
      var sum := RingTotal(samples, win);
      TruncDivSmaller(sum, win);
      if win == 1 {
        TotalOfOne(samples);
        WrapFits(samples[|samples| - 1]);
        assert sum == samples[|samples| - 1];
        assert TruncDiv(sum, 1) == sum;
      }
    }
  }

  lemma MaxUndefExactlyWhenCold(samples: seq<i64>, win: nat)
    requires 0 < win && forall i :: 0 <= i < |samples| ==> Defined(samples[i])
    ensures MaxOut(samples, win) == UNDEF <==> |samples| < win
  {
    RecalledDefined(samples, win, if win == 1 then 1 else win - 1);
  }

  /** The average step gives the sentinel exactly for an undefined sample or a window that is
      not full yet; an undefined sample changes no word. */
  lemma AvgStepUndefExactly(mem: Words, s: Slot, st: SlotState, x: i64)
    requires s.kind == WinAvg && Represents(mem, s, st)
    ensures AvgStep(mem, s, x).1 == UNDEF <==> !Defined(x) || |st.samples| + 1 < s.win
    ensures !Defined(x) ==> AvgStep(mem, s, x).0 == mem
  {
    if Defined(x) {
      AvgRefines(mem, s, st, x);
      AvgUndefExactlyWhenCold(st.samples + [x], s.win);
    }
  }

  lemma MaxStepUndefExactly(mem: Words, s: Slot, st: SlotState, x: i64)
    requires s.kind == WinMax && Represents(mem, s, st)
    ensures MaxStep(mem, s, x).1 == UNDEF <==> !Defined(x) || |st.samples| + 1 < s.win
    ensures !Defined(x) ==> MaxStep(mem, s, x).0 == mem
  {
    if Defined(x) {
      MaxRefines(mem, s, st, x);
      MaxUndefExactlyWhenCold(st.samples + [x], s.win);
    }
  }

  lemma QuotientFar(a: int, b: int, n: int)
    requires 1 <= n && b - a >= 2 * n
    ensures TruncDiv(a, n) != TruncDiv(b, n)
  {
    TruncDivBounds(a, n);
    TruncDivBounds(b, n);
  }

  lemma TruncDivBounds(a: int, n: int)
    requires n >= 1
    ensures a - n < TruncDiv(a, n) * n < a + n
  {
    assert Abs(a) == Abs(a) / n * n + Abs(a) % n;
    assert TruncDiv(a, n) * n == if a < 0 then -(Abs(a) / n * n) else Abs(a) / n * n;
  }

  /** Once warm, the output is the truncated mean of the newest `win` defined samples, the word
      whose multiple by `win` comes nearest to their sum from zero, precisely when the sum fits
      in 64 bits; an addition that wrapped on the way does no harm. */
  lemma AvgIsMeanExactly(samples: seq<i64>, win: nat)
    requires 0 < win < 0x8000_0000 && win <= |samples| && WindowIntact(|samples|, win)
    ensures var sum := Total(Window(samples, win));
            var out := AvgOut(samples, win);
            (Abs(out * win) <= Abs(sum) && Abs(sum - out * win) < win) <==> Fits(sum)
  {
    TruncDivExactly(Total(Window(samples, win)), win, AvgOut(samples, win));
    AvgIsTruncDivExactly(samples, win);
  }

  lemma AvgIsTruncDivExactly(samples: seq<i64>, win: nat)
    requires 0 < win < 0x8000_0000 && win <= |samples| && WindowIntact(|samples|, win)
    ensures var sum := Total(Window(samples, win));
            AvgOut(samples, win) == TruncDiv(sum, win) <==> Fits(sum)
  {
    var sum := Total(Window(samples, win));
    WindowTotalExact(|samples|, win);
    assert RingTotal(samples, win) == Wrap(sum);
    if Fits(sum) {
      WrapFits(sum);
    } else {
      var k := (sum + TWO63) / TWO64;
      assert sum - Wrap(sum) == k * TWO64;
      if k > 0 {
        QuotientFar(Wrap(sum), sum, win);
      } else {
        QuotientFar(sum, Wrap(sum), win);
      }
    }
  }

  /** A lost sample of `win` among zeroes leaves an average of 0. */
  lemma AvgMissesLost(m: nat, win: nat, d: nat)
    requires 1 <= d <= win < 0x8000_0000 && win <= m && !Intact(m, d, win)
    ensures var samples := MarkedWith(m, m - d, win);
            && (forall i :: 0 <= i < m ==> Defined(samples[i])) && Total(Window(samples, win)) == win
            && AvgOut(samples, win) == 0
  {
    LostWriteNotInTotal(m, win, d, win);
    TruncDivUnits(win);
    WrapFits(0);
    assert RingTotal(MarkedWith(m, m - d, win), win) == 0;
  }

  lemma TruncDivUnits(n: int)
    requires n > 0
    ensures TruncDiv(0, n) == 0 && TruncDiv(n, n) == 1
  {
    assert n / n == 1;
  }

  /** The condition on the seam is exact too: after m defined samples, the output is the mean for
      all samples whose sum fits if and only if the window is intact. */
  lemma AvgNeedsWindowExactly(m: nat, win: nat)
    requires 0 < win < 0x8000_0000 && win <= m
    ensures WindowIntact(m, win) <==>
            forall samples: seq<i64> :: |samples| == m && Fits(Total(Window(samples, win)))
              && (forall i :: 0 <= i < m ==> Defined(samples[i]))
              ==> var sum, out := Total(Window(samples, win)), AvgOut(samples, win);
                  Abs(out * win) <= Abs(sum) && Abs(sum - out * win) < win
  {
    if WindowIntact(m, win) {
      forall samples: seq<i64> | |samples| == m && Fits(Total(Window(samples, win)))
        ensures var sum, out := Total(Window(samples, win)), AvgOut(samples, win);
                Abs(out * win) <= Abs(sum) && Abs(sum - out * win) < win
      {
        AvgIsMeanExactly(samples, win);
      }
    } else {
      WindowIntactIsAllIntact(m, win);
      var d :| 1 <= d <= win && !Intact(m, d, win);
      AvgMissesLost(m, win, d);
      var samples := MarkedWith(m, m - d, win);
      assert |samples| == m && Total(Window(samples, win)) == win && AvgOut(samples, win) == 0;
    }
  }

  /** The maximum step gives the maximum of the newest max(1, win - 1) samples. */
  lemma MaxIsLargestOfNewest(samples: seq<i64>, win: nat)
    requires 0 < win < 0x8000_0000 && win <= |samples|
    requires NewestIntact(|samples|, if win == 1 then 1 else win - 1, win)
    ensures MaxOut(samples, win) == Largest(Window(samples, if win == 1 then 1 else win - 1))
  {
    RecalledWindow(samples, win, if win == 1 then 1 else win - 1);
  }

  /** It misses the maximum of the whole window: the two differ as soon as the oldest sample
      is the strictly largest one. */
  lemma MaxMissesOldest(samples: seq<i64>, win: nat)
    requires 2 <= win < 0x8000_0000 && win <= |samples| && NewestIntact(|samples|, win - 1, win)
    ensures MaxOut(samples, win) == Largest(Window(samples, win)) <==>
            samples[|samples| - win] <= Largest(Window(samples, win - 1))
  {
    MaxIsLargestOfNewest(samples, win);
    assert Window(samples, win)[1..] == Window(samples, win - 1);
  }
}
