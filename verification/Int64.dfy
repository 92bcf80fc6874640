/** The 64-bit integer operations the emitted code uses, on mathematical integers.
    Adds, subtractions and multiplications wrap modulo 2^64; remainders of cursors are
    unsigned; divisions truncate toward zero. The least value stands for "undefined". */
module Int64 {
  import opened Residues

  const TWO63: int := 0x8000_0000_0000_0000
  const TWO64: int := 0x1_0000_0000_0000_0000

  type i64 = x: int | -TWO63 <= x < TWO63

  const UNDEF: i64 := -TWO63

  /** Every i64 that is not the sentinel. */
  predicate Defined(x: i64) {
    x != UNDEF
  }

  predicate Fits(x: int) {
    -TWO63 <= x < TWO63
  }

  function Wrap(x: int): (r: i64) {
    (x + TWO63) % TWO64 - TWO63
  }

  function ToUnsigned(x: i64): (r: nat)
    ensures r < TWO64
  {
    if x < 0 then x + TWO64 else x
  }

  function Add(a: i64, b: i64): i64 {
    Wrap(a + b)
  }

  function Sub(a: i64, b: i64): i64 {
    Wrap(a - b)
  }

  function Mul(a: i64, b: i64): i64 {
    Wrap(a * b)
  }

  function URem(a: i64, n: int): (r: nat)
    requires n > 0
    ensures r < n
  {
    ToUnsigned(a) % n
  }

  /** Quotient truncated toward zero. Dafny's `/` is exact for non-negative operands. */
  function TruncDiv(a: int, b: int): int
    requires b != 0
  {
    var q := Abs(a) / Abs(b);
    if (a < 0) == (b < 0) then q else -q
  }

  function Abs(x: int): nat {
    if x < 0 then -x else x
  }

  lemma WrapFits(x: int)
    requires Fits(x)
    ensures Wrap(x) == x
  {
  }

  lemma WrapCongruent(a: int, b: int)
    requires (a - b) % TWO64 == 0
    ensures Wrap(a) == Wrap(b)
  {
    var k := (a - b) / TWO64;
    assert a + TWO63 == b + TWO63 + k * TWO64;
  }

  lemma WrapWrapAdd(a: int, b: int)
    ensures Wrap(Wrap(a) + b) == Wrap(a + b)
  {
    var k := (a + TWO63) / TWO64;
    assert Wrap(a) + b - (a + b) == -k * TWO64;
    assert (-k * TWO64) % TWO64 == 0;
    WrapCongruent(Wrap(a) + b, a + b);
  }

  /** The unsigned reading of a wrapped value is its residue: a cursor that is
      incremented with wrapping adds is the number of increments modulo 2^64. */
  lemma UnsignedOfWrap(x: int)
    ensures ToUnsigned(Wrap(x)) == x % TWO64
  {
    var k := (x + TWO63) / TWO64;
    var w := Wrap(x);
    assert w == x - k * TWO64;
    if w < 0 {
      assert x == (k - 1) * TWO64 + (w + TWO64);
    } else {
      assert x == k * TWO64 + w;
    }
  }

  lemma MulMonotone(q: int, a: int, b: int)
    requires 0 <= q && a <= b
    ensures q * a <= q * b
  {
  }

  lemma TruncDivSmaller(a: int, n: int)
    requires n >= 1
    ensures Abs(TruncDiv(a, n)) <= Abs(a)
    ensures n >= 2 ==> 2 * Abs(TruncDiv(a, n)) <= Abs(a)
  {
    var q := Abs(a) / n;
    assert Abs(a) == n * q + Abs(a) % n;
    assert Abs(TruncDiv(a, n)) == q;
    MulMonotone(q, if n >= 2 then 2 else 1, n);
  }

  /** A wrapped result is the word that differs from the exact one by a multiple of 2^64. */
  lemma WrapExactly(x: int, r: i64)
    ensures r == Wrap(x) <==> (r - x) % TWO64 == 0
  {
    var k := (x + TWO63) / TWO64;
    assert Wrap(x) == x - k * TWO64;
    if r == Wrap(x) {
      ModUnique(r - x, -k, 0, TWO64);
    } else if (r - x) % TWO64 == 0 {
      var j := (r - x) / TWO64;
      assert r - Wrap(x) == (j + k) * TWO64;
      MultipleBounds(j + k, TWO64);
    }
  }

  /** The size of a product, without the signs. */
  lemma AbsProduct(q: int, b: int)
    ensures Abs(q * b) == Abs(q) * Abs(b)
  {
    if q < 0 && b < 0 {
      assert q * b == (-q) * (-b);
    } else if q < 0 {
      assert q * b == -((-q) * b);
    } else if b < 0 {
      assert q * b == -(q * (-b));
    }
  }

  /** Truncation toward zero, without division: the multiple of b next to a that is not farther
      from zero than a. */
  lemma TruncDivExactly(a: int, b: int, q: int)
    requires b != 0
    ensures q == TruncDiv(a, b) <==> Abs(q * b) <= Abs(a) && Abs(a - q * b) < Abs(b)
  {
    TruncDivNear(a, b);
    if Abs(q * b) <= Abs(a) && Abs(a - q * b) < Abs(b) {
      NearIsUnique(a, b, q, TruncDiv(a, b));
    }
  }

  lemma NearIsUnique(a: int, b: int, q: int, t: int)
    requires b != 0 && Abs(q * b) <= Abs(a) && Abs(a - q * b) < Abs(b)
    requires Abs(t * b) <= Abs(a) && Abs(a - t * b) < Abs(b)
    ensures q == t
  {
    SameSide(a, b, q);
    SameSide(a, b, t);
    SmallMultipleIsZero(q - t, b, q * b - t * b);
  }

  lemma SmallMultipleIsZero(d: int, b: int, x: int)
    requires x == d * b && Abs(x) < Abs(b)
    ensures d == 0
  {
    AbsProduct(d, b);
    if d != 0 {
      MulMonotone(Abs(b), 1, Abs(d));
    }
  }

  lemma TruncDivNear(a: int, b: int)
    requires b != 0
    ensures var q := TruncDiv(a, b); Abs(q * b) <= Abs(a) && Abs(a - q * b) < Abs(b)
  {
    var m, n, r := Abs(a) / Abs(b), Abs(b), Abs(a) % Abs(b);
    assert Abs(a) == m * n + r && m >= 0;
    MulMonotone(m, 0, n);
    SignedProduct(m, b, a < 0, TruncDiv(a, b), m * n);
  }

  lemma SignedProduct(m: int, b: int, negative: bool, q: int, x: int)
    requires q == (if negative == (b < 0) then m else -m) && x == m * Abs(b)
    ensures q * b == if negative then -x else x
  {
    if b < 0 {
      assert m * b == -(m * (-b)) && (-m) * b == m * (-b);
    } else {
      assert (-m) * b == -(m * b);
    }
  }

  /** A near multiple lies on the side of a, or is zero. */
  lemma SameSide(a: int, b: int, q: int)
    requires b != 0 && Abs(q * b) <= Abs(a) && Abs(a - q * b) < Abs(b)
    ensures a >= 0 ==> 0 <= q * b <= a < q * b + Abs(b)
    ensures a <= 0 ==> q * b - Abs(b) < a <= q * b <= 0
  {
    AbsProduct(q, b);
    if q != 0 {
      MulMonotone(Abs(b), 1, Abs(q));
    }
  }
}
