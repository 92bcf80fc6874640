/** The bounded ring in place: two arrays and their positions, updated by the emitted writes,
    the commit loop and the guarded read. */
module BoundedRing {
  import opened Wrappers
  import opened Int64
  import opened RingSpec

  class RingSlots {
    const cap: u64
    const cells: array<Option<i64>>
    const pending: array<Option<i64>>
    var head: u64
    var pendingCount: u64

    ghost predicate Valid()
      reads this
    {
      0 < cap && cells.Length == cap && pending.Length == cap && cells != pending
    }

    ghost function View(): (r: Ring)
      requires Valid()
      reads this, cells, pending
      ensures r.Shaped()
    {
      Ring(cap, cells[..], head, pending[..], pendingCount)
    }

    constructor (cap: u64, v: i64)
      requires cap > 0
      ensures Valid() && fresh(cells) && fresh(pending) && View() == Init(cap, v)
    {
      this.cap := cap;
      cells := new Option<i64>[cap](_ => None);
      pending := new Option<i64>[cap](_ => None);
      head, pendingCount := 0, 0;
      new;
      cells[0] := Some(v);
      head := 1;
      assert View().cells == Init(cap, v).cells;
    }

    method WriteNow(v: i64)
      requires Valid()
      modifies this, cells
      ensures Valid() && View() == Write(old(View()), v)
    {
      cells[head % cap] := Some(v);
      head := Next(head);
    }

    method WriteLater(v: i64)
      requires Valid()
      modifies this, pending
      ensures Valid() && View() == WritePending(old(View()), v)
      ensures cells[..] == old(cells[..]) && head == old(head)
    {
      pending[pendingCount % cap] := Some(v);
      pendingCount := Next(pendingCount);
    }

    method CommitPending()
      requires Valid()
      modifies this, cells
      ensures Valid() && View() == Commit(old(View()))
    {
      var count := pendingCount;
      var i: u64 := if count > cap then count - cap else 0;
      while i < count
        invariant Valid() && pendingCount == count && pending[..] == old(pending[..])
        invariant Replay(View(), i) == Replay(old(View()), CommitStart(old(View())))
        decreases count - i
      {
        var value := pending[i % cap];
        ghost var before := View();
        cells[head % cap] := value;
        head := Next(head);
        assert View() == Push(before, value);
        i := i + 1;
      }
      pendingCount := 0;
    }

    /** `depth` is 1 unless a history selector asks for more. */
    method ReadBack(depth: u64) returns (v: Option<i64>)
      requires Valid()
      ensures v == Read(View(), depth)
    {
      var has := head >= depth;
      var prev: u64 := (head - depth) % TWO64;
      var cell := cells[if has then prev % cap else 0];
      v := if cell.None? then None else Some(if has then cell.value else 0);
    }
  }
}
