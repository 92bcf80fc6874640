/** Where the pulse ledger keeps each state slot. The ledger is one block of bytes; every
    offset is a multiple of eight, so it is modelled as a sequence of 64-bit words that is
    addressed by byte offset. */
module PulseLayout {
  import opened Int64

  datatype SlotKind = Acc | Track | WinAvg | WinMax

  datatype Slot = Slot(kind: SlotKind, offset: nat, win: nat) {
    predicate IsWindow() {
      kind == WinAvg || kind == WinMax
    }
  }

  function SlotBytes(kind: SlotKind, win: nat): nat {
    match kind
    case Acc => 8
    case Track => 8 + 8 * win + 8
    case WinAvg | WinMax => win * 8 + 32 + win * 8 + 8
  }

  function End(s: Slot): nat {
    s.offset + SlotBytes(s.kind, s.win)
  }

  // Byte offsets of the fields of a slot. Each names one aligned word inside the slot.

  predicate WordIn(off: nat, s: Slot) {
    s.offset <= off && off + 8 <= End(s) && (s.offset % 8 == 0 ==> off % 8 == 0)
  }

  function ValueOff(s: Slot): (off: nat)
    ensures WordIn(off, s)
  {
    if s.IsWindow() then s.offset + s.win * 8 + 24 else s.offset
  }

  function HistPos(s: Slot): (off: nat)
    ensures s.kind != Acc ==> WordIn(off, s)
  {
    if s.kind == Track then s.offset + 8 + 8 * s.win
    else s.offset + s.win * 8 + 32 + s.win * 8
  }

  function SumOff(s: Slot): (off: nat)
    ensures s.IsWindow() ==> WordIn(off, s)
  {
    s.offset + s.win * 8
  }

  function CursorOff(s: Slot): (off: nat)
    ensures s.IsWindow() ==> WordIn(off, s)
  {
    s.offset + s.win * 8 + 8
  }

  function CountOff(s: Slot): (off: nat)
    ensures s.IsWindow() ==> WordIn(off, s)
  {
    s.offset + s.win * 8 + 16
  }

  function HistRing(s: Slot): nat {
    if s.kind == Track then s.offset + 8 else s.offset + s.win * 8 + 32
  }

  function RingOff(s: Slot): nat {
    s.offset
  }

  /** The c-th word of the history ring, and of the sample ring. */
  function HistCellOff(s: Slot, c: nat): (off: nat)
    ensures s.kind != Acc && c < s.win ==> WordIn(off, s)
  {
    HistRing(s) + c * 8
  }

  function RingCellOff(s: Slot, c: nat): (off: nat)
    ensures s.IsWindow() && c < s.win ==> WordIn(off, s)
  {
    RingOff(s) + c * 8
  }

  /** The fields follow each other without gaps and fill the slot: a single value; a value, the
      history and its position; or the samples, sum, cursor, count, value, history and position. */
  lemma FieldsTileSlot(s: Slot, c: nat)
    requires s.kind != Acc ==> s.win > 0
    ensures s.kind == Acc ==> ValueOff(s) == s.offset && ValueOff(s) + 8 == End(s)
    ensures s.kind == Track ==> ValueOff(s) == s.offset && HistCellOff(s, 0) == ValueOff(s) + 8
    ensures s.IsWindow() ==>
              && RingCellOff(s, 0) == s.offset && SumOff(s) == RingCellOff(s, s.win - 1) + 8
              && CursorOff(s) == SumOff(s) + 8 && CountOff(s) == CursorOff(s) + 8
              && ValueOff(s) == CountOff(s) + 8 && HistCellOff(s, 0) == ValueOff(s) + 8
    ensures s.kind != Acc ==> HistPos(s) == HistCellOff(s, s.win - 1) + 8 && HistPos(s) + 8 == End(s)
    ensures RingCellOff(s, c + 1) == RingCellOff(s, c) + 8 && HistCellOff(s, c + 1) == HistCellOff(s, c) + 8
  {
  }

  // ----- memory -----

  type Words = seq<i64>

  predicate Aligned(off: nat, mem: Words) {
    off % 8 == 0 && off < 8 * |mem|
  }

  function Load(mem: Words, off: nat): i64
    requires Aligned(off, mem)
  {
    mem[off / 8]
  }

  function Store(mem: Words, off: nat, v: i64): (mem': Words)
    requires Aligned(off, mem)
    ensures |mem'| == |mem|
  {
    mem[off / 8 := v]
  }

  predicate ValidWindow(kind: SlotKind, win: nat) {
    kind == Acc || 1 <= win < 0x8000_0000
  }

  predicate Placed(s: Slot, mem: Words) {
    && s.offset % 8 == 0
    && End(s) <= 8 * |mem|
    && ValidWindow(s.kind, s.win)
  }

  predicate InSlot(s: Slot, i: nat) {
    s.offset <= 8 * i < End(s)
  }

  predicate SameOutside(mem: Words, mem': Words, s: Slot) {
    |mem| == |mem'| && forall i: nat :: i < |mem| && !InSlot(s, i) ==> mem[i] == mem'[i]
  }

  /** Number of words of a slot. */
  function SlotSize(s: Slot): nat {
    SlotBytes(s.kind, s.win) / 8
  }

  /** The i-th word of a slot. */
  function Get(mem: Words, s: Slot, i: nat): i64
    requires Placed(s, mem) && i < SlotSize(s)
  {
    mem[s.offset / 8 + i]
  }

  function Put(mem: Words, s: Slot, i: nat, v: i64): (mem': Words)
    requires Placed(s, mem) && i < SlotSize(s)
    ensures Placed(s, mem') && SameOutside(mem, mem', s)
    ensures forall k: nat :: k < SlotSize(s) ==> Get(mem', s, k) == if k == i then v else Get(mem, s, k)
  {
    mem[s.offset / 8 + i := v]
  }

  lemma LoadIsGet(mem: Words, s: Slot, i: nat)
    requires Placed(s, mem) && i < SlotSize(s)
    ensures Aligned(s.offset + 8 * i, mem) && Load(mem, s.offset + 8 * i) == Get(mem, s, i)
  {
  }

  lemma StoreIsPut(mem: Words, s: Slot, i: nat, v: i64)
    requires Placed(s, mem) && i < SlotSize(s)
    ensures Aligned(s.offset + 8 * i, mem) && Store(mem, s.offset + 8 * i, v) == Put(mem, s, i, v)
  {
  }

  // ----- the plan -----

  datatype Decl = Decl(kind: SlotKind, win: nat)

  datatype Plan = Plan(slots: seq<Slot>, totalBytes: nat)

  predicate Disjoint(a: Slot, b: Slot) {
    End(a) <= b.offset || End(b) <= a.offset
  }

  /** What the steps on a ledger rely on. */
  predicate ValidPlan(p: Plan) {
    && p.totalBytes % 8 == 0
    && (forall i :: 0 <= i < |p.slots| ==>
          && p.slots[i].offset % 8 == 0
          && End(p.slots[i]) <= p.totalBytes
          && ValidWindow(p.slots[i].kind, p.slots[i].win))
    && (forall i, j :: 0 <= i < j < |p.slots| ==> Disjoint(p.slots[i], p.slots[j]))
  }

  predicate StartsAtPreviousEnd(slots: seq<Slot>, i: nat)
    requires i < |slots|
  {
    slots[i].offset == if i == 0 then 0 else End(slots[i - 1])
  }

  /** Slots laid out one after the other, the last one ending at `off`. */
  predicate Tiled(slots: seq<Slot>, off: nat) {
    && off == (if slots == [] then 0 else End(slots[|slots| - 1]))
    && forall i :: 0 <= i < |slots| ==> StartsAtPreviousEnd(slots, i)
  }

  lemma SlotBytesAligned(kind: SlotKind, win: nat)
    ensures SlotBytes(kind, win) % 8 == 0
  {
  }

  lemma {:induction false} TiledAligned(slots: seq<Slot>, off: nat, i: nat)
    requires Tiled(slots, off) && i < |slots|
    ensures slots[i].offset % 8 == 0 && End(slots[i]) % 8 == 0
  {
    assert StartsAtPreviousEnd(slots, i);
    SlotBytesAligned(slots[i].kind, slots[i].win);
    if i > 0 {
      TiledAligned(slots, off, i - 1);
    }
  }

  lemma {:induction false} TiledOrdered(slots: seq<Slot>, off: nat, i: nat, j: nat)
    requires Tiled(slots, off) && i < j < |slots|
    ensures End(slots[i]) <= slots[j].offset
  {
    assert StartsAtPreviousEnd(slots, j);
    if i < j - 1 {
      TiledOrdered(slots, off, i, j - 1);
    }
  }

  lemma TiledIsValid(p: Plan)
    requires Tiled(p.slots, p.totalBytes)
    requires forall i :: 0 <= i < |p.slots| ==> ValidWindow(p.slots[i].kind, p.slots[i].win)
    ensures ValidPlan(p)
  {
    var last := |p.slots| - 1;
    forall i | 0 <= i < |p.slots|
      ensures p.slots[i].offset % 8 == 0 && End(p.slots[i]) % 8 == 0 && End(p.slots[i]) <= p.totalBytes
    {
      TiledAligned(p.slots, p.totalBytes, i);
      if i < last {
        TiledOrdered(p.slots, p.totalBytes, i, last);
      }
    }
    forall i, j | 0 <= i < j < |p.slots| ensures Disjoint(p.slots[i], p.slots[j]) {
      TiledOrdered(p.slots, p.totalBytes, i, j);
    }
  }

  /** Lays out the declared slots one after the other. Slots are pairwise disjoint, stay inside
      the block, and tile it: each starts where the one before it ends, up to the last byte. */
  method BuildPulsePlan(decls: seq<Decl>) returns (p: Plan)
    requires forall i :: 0 <= i < |decls| ==> ValidWindow(decls[i].kind, decls[i].win)
    ensures ValidPlan(p) && Tiled(p.slots, p.totalBytes)
    ensures |p.slots| == |decls|
    ensures forall i :: 0 <= i < |decls| ==>
              p.slots[i].kind == decls[i].kind && p.slots[i].win == decls[i].win
  {
    var slots: seq<Slot> := [];
    var off: nat := 0;
    for id := 0 to |decls|
      invariant |slots| == id && Tiled(slots, off)
      invariant forall i :: 0 <= i < id ==>
                  slots[i].kind == decls[i].kind && slots[i].win == decls[i].win
    {
      var s := Slot(decls[id].kind, off, decls[id].win);
      ghost var before := slots;
      slots := slots + [s];
      assert forall i :: 0 <= i < id ==>
          StartsAtPreviousEnd(before, i) ==> StartsAtPreviousEnd(slots, i);
      assert StartsAtPreviousEnd(slots, id);
      off := off + SlotBytes(s.kind, s.win);
    }
    p := Plan(slots, off);
    TiledIsValid(p);
  }
}
