/** A ring of `n` words written one after the other by a 64-bit cursor: the j-th write goes
    to cell (j mod 2^64) mod n. Sample rings and history rings of the pulse ledger work this
    way. The cursor itself wraps, and when n does not divide 2^64 the sequence of cells has a
    seam there; the lemmas say exactly which reads the seam leaves correct. */
module CursorRing {
  import opened Int64
  import opened Residues

  /** The cell that write number j goes to. */
  function CellOf(j: int, n: int): (r: nat)
    requires n > 0
    ensures r < n
  {
    (j % TWO64) % n
  }

  /** The ring after the writes `ws`, starting from zeroes. */
  function Cells(ws: seq<i64>, n: int): (cells: seq<i64>)
    requires n > 0
    ensures |cells| == n
  {
    if ws == [] then seq(n, _ => 0)
    else Cells(ws[..|ws| - 1], n)[CellOf(|ws| - 1, n) := ws[|ws| - 1]]
  }

  lemma CellsPush(ws: seq<i64>, n: int, x: i64)
    requires n > 0
    ensures Cells(ws + [x], n) == Cells(ws, n)[CellOf(|ws|, n) := x]
  {
    assert (ws + [x])[..|ws|] == ws;
  }

  function Total(s: seq<i64>): int {
    if s == [] then 0 else s[0] + Total(s[1..])
  }

  lemma {:induction false} TotalAppend(s: seq<i64>, t: seq<i64>)
    ensures Total(s + t) == Total(s) + Total(t)
  {
    if s == [] {
      assert s + t == t;
    } else {
      assert (s + t)[1..] == s[1..] + t;
      TotalAppend(s[1..], t);
    }
  }

  lemma TotalUpdate(s: seq<i64>, i: nat, x: i64)
    requires i < |s|
    ensures Total(s[i := x]) == Total(s) - s[i] + x
  {
    assert s == s[..i] + ([s[i]] + s[i + 1..]);
    assert s[i := x] == s[..i] + ([x] + s[i + 1..]);
    TotalAppend(s[..i], [s[i]] + s[i + 1..]);
    TotalAppend(s[..i], [x] + s[i + 1..]);
    assert ([s[i]] + s[i + 1..])[1..] == s[i + 1..] == ([x] + s[i + 1..])[1..];
  }

  lemma {:induction false} TotalOfZeroes(s: seq<i64>)
    requires forall i :: 0 <= i < |s| ==> s[i] == 0
    ensures Total(s) == 0
  {
    if s != [] {
      TotalOfZeroes(s[1..]);
    }
  }

  // ----- which cells still hold what was written -----

  /** A cell keeps write j as long as no later write lands on it. */
  lemma {:induction false} CellKeeps(ws: seq<i64>, n: int, j: nat)
    requires n > 0 && j < |ws|
    requires forall k :: j < k < |ws| ==> CellOf(k, n) != CellOf(j, n)
    ensures Cells(ws, n)[CellOf(j, n)] == ws[j]
  {
    if j < |ws| - 1 {
      CellKeeps(ws[..|ws| - 1], n, j);
    }
  }

  /** A cell that some write after j lands on holds a write after j. */
  lemma {:induction false} CellLost(ws: seq<i64>, n: int, j: nat, k: nat)
    requires n > 0 && j < k < |ws| && CellOf(k, n) == CellOf(j, n)
    requires forall i :: j < i < |ws| ==> ws[i] == 0
    ensures Cells(ws, n)[CellOf(j, n)] == 0
  {
    if k < |ws| - 1 {
      CellLost(ws[..|ws| - 1], n, j, k);
    }
  }

  lemma {:induction false} OtherCellsZero(ws: seq<i64>, n: int, j: nat)
    requires n > 0
    requires forall i :: 0 <= i < |ws| && i != j ==> ws[i] == 0
    ensures forall c :: 0 <= c < n && c != CellOf(j, n) ==> Cells(ws, n)[c] == 0
  {
    if ws != [] {
      OtherCellsZero(ws[..|ws| - 1], n, j);
    }
  }

  /** One write marked among zeroes. */
  function MarkedWith(m: nat, j: nat, v: i64): (ws: seq<i64>)
    ensures |ws| == m
  {
    seq(m, i => if i == j then v else 0)
  }

  function Marked(m: nat, j: nat): (ws: seq<i64>)
    ensures |ws| == m
  {
    MarkedWith(m, j, 1)
  }

  // ----- the cursor -----

  /** The cursor d writes before write m, without division. */
  lemma CursorBack(m: nat, d: nat)
    requires d <= TWO64
    ensures d <= m % TWO64 ==> (m - d) % TWO64 == m % TWO64 - d
    ensures d > m % TWO64 ==> (m - d) % TWO64 == TWO64 + m % TWO64 - d
  {
    var c := m % TWO64;
    if d <= c {
      ModUnique(m - d, m / TWO64, c - d, TWO64);
    } else {
      ModUnique(m - d, m / TWO64 - 1, TWO64 + c - d, TWO64);
    }
  }

  // ----- what every cell holds -----

  /** The last of m writes that went to cell c, or -1 if none did. */
  function LastWrite(m: nat, n: int, c: nat): (k: int)
    requires 0 < n <= TWO64 && c < n
    ensures -1 <= k < m
  {
    var e := m % TWO64;
    if c < e then m - 1 - (e - 1 - c) % n
    else if m < TWO64 then -1
    else m - e - 1 - (TWO64 - 1 - c) % n
  }

  /** Within one turn of the cursor, counted from a multiple of 2^64. */
  lemma CellInTurn(m: nat, t: nat, i: nat, n: int)
    requires n > 0 && i < TWO64 && m == t * TWO64 + i
    ensures CellOf(m, n) == i % n
  {
    ModUnique(m, t, i, TWO64);
  }

  /** Of the first e writes of a turn, the last one to cell c. */
  lemma LastInTurn(t: nat, e: nat, n: int, c: nat)
    requires c < n && c < e <= TWO64
    ensures var b, i := t * TWO64, e - 1 - (e - 1 - c) % n;
            0 <= i < e && CellOf(b + i, n) == c && forall j :: b + i < j < b + e ==> CellOf(j, n) != c
  {
    var b, i := t * TWO64, e - 1 - (e - 1 - c) % n;
    LastWithRemainder(e, n, c);
    CellInTurn(b + i, t, i, n);
    forall j | b + i < j < b + e ensures CellOf(j, n) != c {
      CellInTurn(j, t, j - b, n);
    }
  }

  /** The first c writes of a turn miss the cells from c on. */
  lemma NoneInTurn(t: nat, e: nat, n: int, c: nat)
    requires e <= c < n && e <= TWO64
    ensures forall j :: t * TWO64 <= j < t * TWO64 + e ==> CellOf(j, n) != c
  {
    var b := t * TWO64;
    forall j | b <= j < b + e ensures CellOf(j, n) != c {
      CellInTurn(j, t, j - b, n);
      ModUnique(j - b, 0, j - b, n);
    }
  }

  lemma LastWriteIsLast(m: nat, n: int, c: nat)
    requires 0 < n <= TWO64 && c < n
    ensures var k := LastWrite(m, n, c);
            (k >= 0 ==> CellOf(k, n) == c) && forall j :: k < j < m && j >= 0 ==> CellOf(j, n) != c
  {
    var e, t := m % TWO64, m / TWO64;
    assert m == t * TWO64 + e;
    if c < e {
      LastInTurn(t, e, n, c);
    } else {
      NoneInTurn(t, e, n, c);
      if t == 0 {
        assert LastWrite(m, n, c) == -1;
      } else {
        assert (t - 1) * TWO64 + TWO64 == t * TWO64 == m - e;
        LastInTurn(t - 1, TWO64, n, c);
      }
    }
  }

  lemma {:induction false} CellUntouched(ws: seq<i64>, n: int, c: nat)
    requires 0 < n && c < n && forall j :: 0 <= j < |ws| ==> CellOf(j, n) != c
    ensures Cells(ws, n)[c] == 0
  {
    if ws != [] {
      CellUntouched(ws[..|ws| - 1], n, c);
    }
  }

  /** For any number of writes, wrapped or not, every cell holds the last write to it, or 0. */
  lemma CellHolds(ws: seq<i64>, n: int, c: nat)
    requires 0 < n <= TWO64 && c < n
    ensures var k := LastWrite(|ws|, n, c);
            Cells(ws, n)[c] == if k < 0 then 0 else ws[k]
  {
    LastWriteIsLast(|ws|, n, c);
    var k := LastWrite(|ws|, n, c);
    if k < 0 {
      CellUntouched(ws, n, c);
    } else {
      CellKeeps(ws, n, k);
    }
  }

  // ----- reading further back than anything was written -----

  /** The cell that such a read selects, the position being below zero. */
  function EarlyCell(m: nat, back: nat, n: int): (c: nat)
    requires m < back <= n <= TWO64
    ensures c < n
  {
    (TWO64 + m - back) % n
  }

  /** It gives one of the writes when that cell has one, and 0 otherwise. */
  lemma EarlyRead(ws: seq<i64>, back: nat, n: int)
    requires |ws| < back <= n <= TWO64
    ensures CellOf(|ws| - back, n) == EarlyCell(|ws|, back, n)
    ensures var c := EarlyCell(|ws|, back, n);
            Cells(ws, n)[c] == if c < |ws| then ws[c] else 0
  {
    var m := |ws|;
    ModUnique(m - back, -1, TWO64 + m - back, TWO64);
    CellsWhileFilling(ws, n);
  }

  /** For the histories of length m whose first write is 0, it gives 0 exactly if it selects the
      first cell or one that has not been written. */
  lemma EarlyReadIsZeroExactly(m: nat, back: nat, n: int)
    requires m < back <= n <= TWO64
    ensures var c := EarlyCell(m, back, n);
            c == 0 || c >= m <==>
            forall ws: seq<i64> :: |ws| == m && (m > 0 ==> ws[0] == 0) ==> Cells(ws, n)[CellOf(m - back, n)] == 0
  {
    var c := EarlyCell(m, back, n);
    if c == 0 || c >= m {
      forall ws: seq<i64> | |ws| == m && (m > 0 ==> ws[0] == 0) ensures Cells(ws, n)[CellOf(m - back, n)] == 0 {
        EarlyRead(ws, back, n);
      }
    } else {
      var ws := Marked(m, c);
      EarlyRead(ws, back, n);
      assert |ws| == m && ws[0] == 0 && Cells(ws, n)[CellOf(m - back, n)] != 0;
    }
  }

  lemma DeepestEarlyCell(n: int)
    requires 0 < n <= TWO64 && TWO64 % n > 0
    ensures EarlyCell(n - 1, n, n) == TWO64 % n - 1
  {
    ModUnique(TWO64 - 1, TWO64 / n, TWO64 % n - 1, n);
  }

  /** All such reads give 0 exactly for the ring lengths that divide 2^64 or 2^64 - 1. */
  lemma EarlyReadsAreZeroExactly(n: int)
    requires 0 < n <= TWO64
    ensures TWO64 % n <= 1 <==>
            forall m: nat, back: nat :: m < back <= n ==> EarlyCell(m, back, n) == 0 || EarlyCell(m, back, n) >= m
  {
    var r := TWO64 % n;
    if r <= 1 {
      forall m: nat, back: nat | m < back <= n ensures EarlyCell(m, back, n) == 0 || EarlyCell(m, back, n) >= m {
        var d := back - m;
        if r < d {
          ModUnique(TWO64 - d, TWO64 / n - 1, n + r - d, n);
        } else {
          ModUnique(TWO64 - d, TWO64 / n, r - d, n);
        }
      }
    } else {
      DeepestEarlyCell(n);
    }
  }

  // ----- the exact condition for reading back -----

  /** After m writes, the write d steps back (1 <= d <= n) is still in its cell: either the
      cursor has not wrapped within those d steps, or the seam happens to miss its cell. */
  predicate Intact(m: nat, d: nat, n: int)
    requires n > 0
  {
    m % TWO64 >= d || (TWO64 + m % TWO64 - d) % n >= m % TWO64
  }

  lemma NotYetWrapped(m: nat, d: nat, n: int)
    requires n > 0 && d <= m < TWO64
    ensures Intact(m, d, n)
  {
  }

  lemma IntactMeansUntouched(m: nat, d: nat, n: int)
    requires 1 <= d <= n <= TWO64 && d <= m
    ensures Intact(m, d, n) <==> forall k :: m - d < k < m ==> CellOf(k, n) != CellOf(m - d, n)
  {
    var c := m % TWO64;
    CursorBack(m, d);
    if Intact(m, d, n) {
      forall k | m - d < k < m ensures CellOf(k, n) != CellOf(m - d, n) {
        var e := m - k;
        CursorBack(m, e);
        if c >= d || e > c {
          ModNear((m - d) % TWO64, k % TWO64, n);
        } else {
          ModUnique(c - e, 0, c - e, n);
        }
      }
    } else {
      var q := (TWO64 + c - d) % n;
      var k := m - (c - q);
      CursorBack(m, c - q);
      ModUnique(q, 0, q, n);
      assert CellOf(k, n) == CellOf(m - d, n);
    }
  }

  /** Reading back d steps is right for all histories of length m exactly when `Intact`. */
  lemma ReadBackExact(m: nat, d: nat, n: int)
    requires 1 <= d <= n <= TWO64 && d <= m
    ensures Intact(m, d, n) <==>
            forall ws: seq<i64> :: |ws| == m ==> Cells(ws, n)[CellOf(m - d, n)] == ws[m - d]
  {
    IntactMeansUntouched(m, d, n);
    if Intact(m, d, n) {
      forall ws: seq<i64> | |ws| == m
        ensures Cells(ws, n)[CellOf(m - d, n)] == ws[m - d]
      {
        CellKeeps(ws, n, m - d);
      }
    } else {
      var k :| m - d < k < m && CellOf(k, n) == CellOf(m - d, n);
      var ws := Marked(m, m - d);
      CellLost(ws, n, m - d, k);
      assert |ws| == m && Cells(ws, n)[CellOf(m - d, n)] != ws[m - d];
    }
  }

  // ----- the whole window -----

  /** No seam of the cursor lies inside the newest n writes, or it is invisible. */
  predicate WindowIntact(m: nat, n: int)
    requires n > 0
  {
    m < TWO64 || m % TWO64 == 0 || m % TWO64 >= n || TWO64 % n == 0
  }

  lemma WindowIntactIsAllIntact(m: nat, n: int)
    requires 0 < n <= TWO64 && n <= m
    ensures WindowIntact(m, n) <==> forall d :: 1 <= d <= n ==> Intact(m, d, n)
  {
    var c, r := m % TWO64, TWO64 % n;
    if WindowIntact(m, n) {
      forall d | 1 <= d <= n ensures Intact(m, d, n) {
        if r == 0 && c < d {
          ModUnique(TWO64 + c - d, TWO64 / n - 1, n + c - d, n);
        }
      }
    } else {
      var d := if r + c < n then r + c else n;
      var e := r + c - d;
      assert 1 <= d <= n && c < d;
      ModUnique(TWO64 + c - d, TWO64 / n, e, n);
      assert !Intact(m, d, n);
    }
  }

  /** The newest n writes. */
  function Window(ws: seq<i64>, n: nat): (w: seq<i64>)
    requires n <= |ws|
    ensures |w| == n
  {
    ws[|ws| - n..]
  }

  /** Before the ring is full it holds the writes in order, then zeroes. */
  lemma {:induction false} CellsWhileFilling(ws: seq<i64>, n: int)
    requires |ws| <= n <= TWO64 && n > 0
    ensures Cells(ws, n) == ws + seq(n - |ws|, _ => 0)
  {
    if ws != [] {
      var m := |ws| - 1;
      CellsWhileFilling(ws[..m], n);
      ModUnique(m, 0, m, TWO64);
      ModUnique(m, 0, m, n);
    }
  }

  /** Within an intact window the cells used are consecutive. */
  lemma StepsFromStart(m: nat, n: int, i: nat)
    requires 0 < n <= TWO64 && n <= m && i < n && WindowIntact(m, n)
    ensures CellOf(m - n + i, n) == (CellOf(m - n, n) + i) % n
  {
    var a := (m - n) % TWO64;
    ModOfAdd(a, i, n);
    CursorBack(m, n);
    CursorBack(m, n - i);
    if (m - n + i) % TWO64 != a + i {
      assert a + i == TWO64 + (m - n + i) % TWO64;
      assert TWO64 % n == 0;
      ModOfAdd(TWO64, (m - n + i) % TWO64, n);
    }
  }

  lemma RotatedAt(cells: seq<i64>, k: nat, i: nat)
    requires k < |cells| && i < |cells|
    ensures (cells[k..] + cells[..k])[i] == cells[(k + i) % |cells|]
  {
    var n := |cells|;
    if k + i < n {
      ModUnique(k + i, 0, k + i, n);
    } else {
      ModUnique(k + i, 1, k + i - n, n);
    }
  }

  /** A full ring is a rotation of the newest n writes. */
  lemma CellsRotateWindow(ws: seq<i64>, n: int)
    requires 0 < n <= TWO64 && n <= |ws| && WindowIntact(|ws|, n)
    ensures var k := CellOf(|ws| - n, n);
            Cells(ws, n)[k..] + Cells(ws, n)[..k] == Window(ws, n)
  {
    var k, cells, window := CellOf(|ws| - n, n), Cells(ws, n), Window(ws, n);
    var rotated := cells[k..] + cells[..k];
    assert |rotated| == n;
    forall i: nat | i < n ensures rotated[i] == window[i] {
      CellInWindow(ws, n, i);
      RotatedAt(cells, k, i);
    }
  }

  lemma CellInWindow(ws: seq<i64>, n: int, i: nat)
    requires 0 < n <= TWO64 && n <= |ws| && WindowIntact(|ws|, n) && i < n
    ensures Cells(ws, n)[(CellOf(|ws| - n, n) + i) % n] == ws[|ws| - n + i]
  {
    var m, d := |ws|, n - i;
    WindowIntactIsAllIntact(m, n);
    assert Intact(m, d, n);
    IntactMeansUntouched(m, d, n);
    CellKeeps(ws, n, m - d);
    StepsFromStart(m, n, i);
  }

  lemma TotalRotate(s: seq<i64>, k: nat)
    requires k <= |s|
    ensures Total(s[k..] + s[..k]) == Total(s)
  {
    TotalAppend(s[k..], s[..k]);
    TotalAppend(s[..k], s[k..]);
    assert s[..k] + s[k..] == s;
  }

  lemma {:induction false} TotalOfMarked(s: seq<i64>, j: nat)
    requires j < |s|
    requires forall i :: 0 <= i < |s| && i != j ==> s[i] == 0
    ensures Total(s) == s[j]
  {
    if j == 0 {
      TotalOfZeroes(s[1..]);
    } else {
      TotalOfMarked(s[1..], j - 1);
    }
  }

  lemma WindowTotal(ws: seq<i64>, n: int)
    requires 0 < n <= TWO64 && n <= |ws| && WindowIntact(|ws|, n)
    ensures Total(Cells(ws, n)) == Total(Window(ws, n))
  {
    CellsRotateWindow(ws, n);
    TotalRotate(Cells(ws, n), CellOf(|ws| - n, n));
  }

  /** A lost write marked among zeroes is missing from the total. */
  lemma LostWriteNotInTotal(m: nat, n: int, d: nat, v: i64)
    requires 1 <= d <= n <= TWO64 && n <= m && !Intact(m, d, n)
    ensures var ws := MarkedWith(m, m - d, v);
            Total(Cells(ws, n)) == 0 && Total(Window(ws, n)) == v
  {
    IntactMeansUntouched(m, d, n);
    var k :| m - d < k < m && CellOf(k, n) == CellOf(m - d, n);
    var ws := MarkedWith(m, m - d, v);
    CellLost(ws, n, m - d, k);
    OtherCellsZero(ws, n, m - d);
    TotalOfZeroes(Cells(ws, n));
    TotalOfMarked(Window(ws, n), n - d);
  }

  /** The ring's total is the total of the newest n writes, for all histories of length m,
      exactly when the window is intact. */
  lemma WindowTotalExact(m: nat, n: int)
    requires 0 < n <= TWO64 && n <= m
    ensures WindowIntact(m, n) <==>
            forall ws: seq<i64> :: |ws| == m ==> Total(Cells(ws, n)) == Total(Window(ws, n))
  {
    if WindowIntact(m, n) {
      forall ws: seq<i64> | |ws| == m ensures Total(Cells(ws, n)) == Total(Window(ws, n)) {
        WindowTotal(ws, n);
      }
    } else {
      WindowIntactIsAllIntact(m, n);
      var d :| 1 <= d <= n && !Intact(m, d, n);
      LostWriteNotInTotal(m, n, d, 1);
      assert |Marked(m, m - d)| == m;
    }
  }

  // ----- reading the newest k one by one -----

  /** What reading the ring k, ..., 1 steps back gives. */
  function Recalled(ws: seq<i64>, n: int, k: nat): (r: seq<i64>)
    requires n > 0
    ensures |r| == k
  {
    if k == 0 then [] else [Cells(ws, n)[CellOf(|ws| - k, n)]] + Recalled(ws, n, k - 1)
  }

  predicate NewestIntact(m: nat, k: nat, n: int)
    requires n > 0
  {
    forall d :: 1 <= d <= k ==> Intact(m, d, n)
  }

  lemma {:induction false} RecalledWindow(ws: seq<i64>, n: int, k: nat)
    requires k <= n <= TWO64 && 0 < n && k <= |ws| && NewestIntact(|ws|, k, n)
    ensures Recalled(ws, n, k) == Window(ws, k)
  {
    if k > 0 {
      assert Intact(|ws|, k, n);
      IntactMeansUntouched(|ws|, k, n);
      CellKeeps(ws, n, |ws| - k);
      RecalledWindow(ws, n, k - 1);
    }
  }

  function Largest(s: seq<i64>): (r: i64)
    requires s != []
    ensures r in s
    ensures forall i :: 0 <= i < |s| ==> s[i] <= r
  {
    if |s| == 1 then s[0]
    else
      var rest := Largest(s[1..]);
      assert forall i :: 1 <= i < |s| ==> s[i] == s[1..][i - 1];
      if s[0] > rest then s[0] else rest
  }

  lemma {:induction false} RecalledAllZero(ws: seq<i64>, n: int, k: nat)
    requires n > 0 && forall c :: 0 <= c < n ==> Cells(ws, n)[c] == 0
    ensures forall i :: 0 <= i < k ==> Recalled(ws, n, k)[i] == 0
  {
    if k > 0 {
      RecalledAllZero(ws, n, k - 1);
    }
  }

  /** The largest word recalled is the largest of the newest k writes, for all histories of
      length m, exactly when each of the k reads is intact. */
  lemma LargestRecalledExact(m: nat, n: int, k: nat)
    requires 1 <= k <= n <= TWO64 && k <= m
    ensures NewestIntact(m, k, n) <==>
            forall ws: seq<i64> :: |ws| == m ==> Largest(Recalled(ws, n, k)) == Largest(Window(ws, k))
  {
    if NewestIntact(m, k, n) {
      forall ws: seq<i64> | |ws| == m ensures Largest(Recalled(ws, n, k)) == Largest(Window(ws, k)) {
        RecalledWindow(ws, n, k);
      }
    } else {
      var d :| 1 <= d <= k && !Intact(m, d, n);
      IntactMeansUntouched(m, d, n);
      var j :| m - d < j < m && CellOf(j, n) == CellOf(m - d, n);
      var ws := Marked(m, m - d);
      CellLost(ws, n, m - d, j);
      OtherCellsZero(ws, n, m - d);
      RecalledAllZero(ws, n, k);
      assert Window(ws, k)[k - d] == 1;
      assert |ws| == m && Largest(Recalled(ws, n, k)) != Largest(Window(ws, k));
    }
  }

  /** Ring words are written words or the initial zero. */
  lemma {:induction false} CellsDefined(ws: seq<i64>, n: int)
    requires n > 0 && forall i :: 0 <= i < |ws| ==> Defined(ws[i])
    ensures forall c :: 0 <= c < n ==> Defined(Cells(ws, n)[c])
  {
    if ws != [] {
      CellsDefined(ws[..|ws| - 1], n);
    }
  }

  lemma {:induction false} RecalledDefined(ws: seq<i64>, n: int, k: nat)
    requires n > 0 && forall i :: 0 <= i < |ws| ==> Defined(ws[i])
    ensures forall i :: 0 <= i < k ==> Defined(Recalled(ws, n, k)[i])
  {
    CellsDefined(ws, n);
    if k > 0 {
      RecalledDefined(ws, n, k - 1);
    }
  }
}
