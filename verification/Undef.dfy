/** Expressions over possibly undefined integers. The emitted code keeps an optional integer in
    one 64-bit word, INT64_MIN standing for "undefined", and evaluates every operand eagerly. The
    main result: under a condition on the defined intermediate values, evaluating words gives the
    encoding of evaluating optional integers of unbounded size. */
module Undef {
  import opened Wrappers
  import opened Int64
  import opened Residues
  import opened RingSpec

  /** Scalar slots by name, and bounded rings by name. A name without a slot reads as 0. */
  datatype Store = Store(vars: map<string, i64>, rings: Rings) {
    ghost predicate Valid() {
      AllShaped(rings)
    }
  }

  datatype BinOp = Plus | Minus | Times | Div | Mod

  datatype CmpOp = Eq | Ne | Lt | Le | Gt | Ge

  datatype Expr =
    | Lit(v: i64)
    | Ref(name: string, depth: u64)
    | Bin(op: BinOp, lhs: Expr, rhs: Expr)
    | Fallback(primary: Expr, alternate: Expr)
    | WaveMerge(cond: Cond, onTrue: Expr, onFalse: Expr)
    | GuardSelect(base: Expr, guard: Cond)
    | EqProbe(base: Expr, probe: Expr)

  /** A condition: a one-bit value, or a word tested against zero. */
  datatype Cond =
    | NonZero(e: Expr)
    | Cmp(cop: CmpOp, l: Expr, r: Expr)
    | Not(c: Cond)
    | And(c1: Cond, c2: Cond)
    | Or(c1: Cond, c2: Cond)
    | Xor(c1: Cond, c2: Cond)

  // ----- words -----

  function Rem(a: int, b: int): int
    requires b != 0
  {
    a - TruncDiv(a, b) * b
  }

  /** The machine divides before it selects, so the operands decide legality even when one of
      them is undefined. */
  predicate LegalOperands(op: BinOp, a: i64, b: i64) {
    op == Div || op == Mod ==> b != 0 && !(a == UNDEF && b == -1)
  }

  lemma RemSmaller(a: int, b: int)
    requires b != 0
    ensures Abs(Rem(a, b)) < Abs(b)
    ensures Abs(Rem(a, b)) <= Abs(a)
  {
    var q, m := Abs(a) / Abs(b), Abs(b);
    assert Abs(a) == m * q + Abs(a) % m;
    assert TruncDiv(a, b) * b == if a < 0 then -(q * m) else q * m;
    MulMonotone(q, 0, m);
  }

  lemma QuotSmaller(a: int, b: int)
    requires b != 0
    ensures Abs(TruncDiv(a, b)) <= Abs(a)
    ensures Abs(b) >= 2 ==> 2 * Abs(TruncDiv(a, b)) <= Abs(a)
  {
    var q, m := Abs(a) / Abs(b), Abs(b);
    assert Abs(a) == m * q + Abs(a) % m;
    MulMonotone(q, if m >= 2 then 2 else 1, m);
  }

  lemma LegalQuotientFits(a: i64, b: i64)
    requires LegalOperands(Div, a, b)
    ensures Fits(TruncDiv(a, b)) && Fits(Rem(a, b))
  {
    QuotSmaller(a, b);
    RemSmaller(a, b);
  }

  function RawBin(op: BinOp, a: i64, b: i64): i64
    requires LegalOperands(op, a, b)
  {
    match op
    case Plus => Add(a, b)
    case Minus => Sub(a, b)
    case Times => Mul(a, b)
    case Div => LegalQuotientFits(a, b); TruncDiv(a, b)
    case Mod => LegalQuotientFits(a, b); Rem(a, b)
  }

  function EvalBin(op: BinOp, a: i64, b: i64): Option<i64> {
    if !LegalOperands(op, a, b) then None
    else Some(if a == UNDEF || b == UNDEF then UNDEF else RawBin(op, a, b))
  }

  function Compare(op: CmpOp, a: i64, b: i64): bool {
    match op
    case Eq => a == b
    case Ne => a != b
    case Lt => a < b
    case Le => a <= b
    case Gt => a > b
    case Ge => a >= b
  }

  function Lookup(st: Store, name: string, depth: u64): Option<i64>
    requires st.Valid()
  {
    if name in st.rings then Read(st.rings[name], depth)
    else Some(if name in st.vars then st.vars[name] else 0)
  }

  /** Evaluates in words; None when the emitted code has no defined behaviour. */
  function Eval(e: Expr, st: Store): Option<i64>
    requires st.Valid()
  {
    match e
    case Lit(v) => Some(v)
    case Ref(name, depth) => Lookup(st, name, depth)
    case Bin(op, l, r) =>
      var a, b := Eval(l, st), Eval(r, st);
      if a.None? || b.None? then None else EvalBin(op, a.value, b.value)
    case Fallback(p, alt) =>
      var a, b := Eval(p, st), Eval(alt, st);
      if a.None? || b.None? then None else Some(if a.value == UNDEF then b.value else a.value)
    case WaveMerge(c, t, f) =>
      var g, a, b := EvalCond(c, st), Eval(t, st), Eval(f, st);
      if g.None? || a.None? || b.None? then None else Some(if g.value then a.value else b.value)
    case GuardSelect(base, c) =>
      var a, g := Eval(base, st), EvalCond(c, st);
      if a.None? || g.None? then None else Some(if g.value then a.value else UNDEF)
    case EqProbe(base, probe) =>
      var a, b := Eval(base, st), Eval(probe, st);
      if a.None? || b.None? then None else Some(if a.value == b.value then a.value else UNDEF)
  }

  function EvalCond(c: Cond, st: Store): Option<bool>
    requires st.Valid()
  {
    match c
    case NonZero(e) => var a := Eval(e, st); if a.None? then None else Some(a.value != 0)
    case Cmp(op, l, r) =>
      var a, b := Eval(l, st), Eval(r, st);
      if a.None? || b.None? then None else Some(Compare(op, a.value, b.value))
    case Not(c1) => var x := EvalCond(c1, st); if x.None? then None else Some(!x.value)
    case And(c1, c2) =>
      var x, y := EvalCond(c1, st), EvalCond(c2, st);
      if x.None? || y.None? then None else Some(x.value && y.value)
    case Or(c1, c2) =>
      var x, y := EvalCond(c1, st), EvalCond(c2, st);
      if x.None? || y.None? then None else Some(x.value || y.value)
    case Xor(c1, c2) =>
      var x, y := EvalCond(c1, st), EvalCond(c2, st);
      if x.None? || y.None? then None else Some(x.value != y.value)
  }

  // ----- optional integers -----

  type Opt = Option<int>

  predicate InRange(x: int) {
    -TWO63 < x < TWO63
  }

  predicate Encodable(o: Opt) {
    o.Some? ==> InRange(o.value)
  }

  function Enc(o: Opt): i64
    requires Encodable(o)
  {
    if o.None? then UNDEF else o.value
  }

  function Dec(x: i64): (o: Opt)
    ensures Encodable(o) && Enc(o) == x
  {
    if x == UNDEF then None else Some(x)
  }

  lemma DecEnc(o: Opt)
    requires Encodable(o)
    ensures Dec(Enc(o)) == o
  {
  }

  /** On unbounded integers. Division rounds toward zero; a remainder is what a multiple of the
      divisor leaves, and has the sign of the dividend. */
  function ExactBin(op: BinOp, a: int, b: int): (r: int)
    requires op == Div || op == Mod ==> b != 0
    ensures op == Div ==> Abs(r * b) <= Abs(a) && Abs(a - r * b) < Abs(b)
    ensures op == Mod ==> Abs(r) < Abs(b) && (a - r) % b == 0 && (r == 0 || (r < 0 <==> a < 0))
  {
    match op
    case Plus => a + b
    case Minus => a - b
    case Times => a * b
    case Div => DivisionMeans(a, b); TruncDiv(a, b)
    case Mod => DivisionMeans(a, b); Rem(a, b)
  }

  lemma DivisionMeans(a: int, b: int)
    requires b != 0
    ensures var q := TruncDiv(a, b); Abs(q * b) <= Abs(a) && Abs(a - q * b) < Abs(b)
    ensures var r := Rem(a, b); Abs(r) < Abs(b) && (a - r) % b == 0 && (r == 0 || (r < 0 <==> a < 0))
  {
    var q := TruncDiv(a, b);
    TruncDivNear(a, b);
    SameSide(a, b, q);
    MultipleLeavesNothing(q, b);
    assert a - Rem(a, b) == q * b;
  }

  lemma MultipleLeavesNothing(q: int, b: int)
    requires b != 0
    ensures (q * b) % b == 0
  {
    if b > 0 {
      ModUnique(q * b, q, 0, b);
    } else {
      ModUnique(q * b, -q, 0, -b);
      assert (q * b) % (-b) == 0;
    }
  }

  /** Undefined operands make the result undefined; so does a zero divisor. */
  function OptBin(op: BinOp, a: Opt, b: Opt): Opt {
    if a.None? || b.None? then None
    else if (op == Div || op == Mod) && b.value == 0 then None
    else Some(ExactBin(op, a.value, b.value))
  }

  /** In comparisons an undefined value is smaller than every defined one. */
  function OptLess(a: Opt, b: Opt): bool {
    b.Some? && (a.None? || a.value < b.value)
  }

  function OptCompare(op: CmpOp, a: Opt, b: Opt): bool {
    match op
    case Eq => a == b
    case Ne => a != b
    case Lt => OptLess(a, b)
    case Le => !OptLess(b, a)
    case Gt => OptLess(b, a)
    case Ge => !OptLess(a, b)
  }

  function OptEval(e: Expr, st: Store): Opt
    requires st.Valid()
  {
    match e
    case Lit(v) => Dec(v)
    case Ref(name, depth) =>
      var v := Lookup(st, name, depth);
      if v.None? then None else Dec(v.value)
    case Bin(op, l, r) => OptBin(op, OptEval(l, st), OptEval(r, st))
    case Fallback(p, alt) => if OptEval(p, st).None? then OptEval(alt, st) else OptEval(p, st)
    case WaveMerge(c, t, f) => if OptCond(c, st) then OptEval(t, st) else OptEval(f, st)
    case GuardSelect(base, c) => if OptCond(c, st) then OptEval(base, st) else None
    case EqProbe(base, probe) => if OptEval(base, st) == OptEval(probe, st) then OptEval(base, st) else None
  }

  /** An undefined value counts as true: the sentinel is not zero. */
  function OptCond(c: Cond, st: Store): bool
    requires st.Valid()
  {
    match c
    case NonZero(e) => OptEval(e, st) != Some(0)
    case Cmp(op, l, r) => OptCompare(op, OptEval(l, st), OptEval(r, st))
    case Not(c1) => !OptCond(c1, st)
    case And(c1, c2) => OptCond(c1, st) && OptCond(c2, st)
    case Or(c1, c2) => OptCond(c1, st) || OptCond(c2, st)
    case Xor(c1, c2) => OptCond(c1, st) != OptCond(c2, st)
  }

  // ----- when the two agree -----

  /** One operation: a legal division, and an exact result that is in range without being the
      sentinel. */
  predicate NodeSafe(op: BinOp, a: Opt, b: Opt) {
    && (op == Div || op == Mod ==> b != Some(0) && !(a.None? && b == Some(-1)))
    && Encodable(OptBin(op, a, b))
  }

  predicate Safe(e: Expr, st: Store)
    requires st.Valid()
  {
    match e
    case Lit(_) => true
    case Ref(name, depth) => Lookup(st, name, depth).Some?
    case Bin(op, l, r) => Safe(l, st) && Safe(r, st) && NodeSafe(op, OptEval(l, st), OptEval(r, st))
    case Fallback(p, alt) => Safe(p, st) && Safe(alt, st)
    case WaveMerge(c, t, f) => SafeCond(c, st) && Safe(t, st) && Safe(f, st)
    case GuardSelect(base, c) => Safe(base, st) && SafeCond(c, st)
    case EqProbe(base, probe) => Safe(base, st) && Safe(probe, st)
  }

  predicate SafeCond(c: Cond, st: Store)
    requires st.Valid()
  {
    match c
    case NonZero(e) => Safe(e, st)
    case Cmp(_, l, r) => Safe(l, st) && Safe(r, st)
    case Not(c1) => SafeCond(c1, st)
    case And(c1, c2) => SafeCond(c1, st) && SafeCond(c2, st)
    case Or(c1, c2) => SafeCond(c1, st) && SafeCond(c2, st)
    case Xor(c1, c2) => SafeCond(c1, st) && SafeCond(c2, st)
  }

  lemma WrapInRangeExact(x: int)
    ensures InRange(x) <==> Dec(Wrap(x)) == Some(x)
  {
  }

  /** For one operation the condition is exact: evaluating words decodes to the optional result
      if and only if the node is safe. */
  lemma BinExact(op: BinOp, a: i64, b: i64)
    ensures NodeSafe(op, Dec(a), Dec(b)) <==>
            EvalBin(op, a, b).Some? && Dec(EvalBin(op, a, b).value) == OptBin(op, Dec(a), Dec(b))
  {
    if LegalOperands(op, a, b) && Defined(a) && Defined(b) {
      match op
      case Plus => WrapInRangeExact(a + b);
      case Minus => WrapInRangeExact(a - b);
      case Times => WrapInRangeExact(a * b);
      case Div => LegalQuotientFits(a, b); QuotSmaller(a, b);
      case Mod => LegalQuotientFits(a, b); RemSmaller(a, b);
    }
  }

  /** What the machine computes from two words: sums, differences and products that wrap, a
      quotient rounded toward zero and a remainder with the sign of the dividend. It has no
      result for a zero divisor, nor for the one quotient that does not fit. */
  lemma BinMeans(op: BinOp, a: i64, b: i64)
    ensures EvalBin(op, a, b).None? <==> (op == Div || op == Mod) && (b == 0 || (a == UNDEF && b == -1))
    ensures EvalBin(op, a, b).Some? && !(Defined(a) && Defined(b)) ==> EvalBin(op, a, b).value == UNDEF
    ensures EvalBin(op, a, b).Some? && Defined(a) && Defined(b) ==>
              var r := EvalBin(op, a, b).value;
              match op
              case Plus => (r - (a + b)) % TWO64 == 0
              case Minus => (r - (a - b)) % TWO64 == 0
              case Times => (r - a * b) % TWO64 == 0
              case Div => Abs(r * b) <= Abs(a) && Abs(a - r * b) < Abs(b)
              case Mod => Abs(r) < Abs(b) && (a - r) % b == 0 && (r == 0 || (r < 0 <==> a < 0))
  {
    if LegalOperands(op, a, b) && Defined(a) && Defined(b) {
      match op
      case Plus => WrapExactly(a + b, Add(a, b));
      case Minus => WrapExactly(a - b, Sub(a, b));
      case Times => WrapExactly(a * b, Mul(a, b));
      case Div => DivisionMeans(a, b);
      case Mod => DivisionMeans(a, b);
    }
  }

  /** The order of words, by the sign of the difference. */
  lemma CompareMeans(op: CmpOp, a: i64, b: i64)
    ensures Compare(op, a, b) <==>
            var d: int := b - a;
            (d == 0 && op in {Eq, Le, Ge}) || (d > 0 && op in {Ne, Lt, Le}) || (d < 0 && op in {Ne, Gt, Ge})
  {
  }

  lemma CompareExact(op: CmpOp, a: i64, b: i64)
    ensures Compare(op, a, b) == OptCompare(op, Dec(a), Dec(b))
  {
  }

  /** Evaluating words is evaluating optional integers, then encoding. */
  lemma {:induction false} SentinelHomomorphism(e: Expr, st: Store)
    requires st.Valid() && Safe(e, st)
    ensures Encodable(OptEval(e, st)) && Eval(e, st) == Some(Enc(OptEval(e, st)))
    decreases e
  {
    match e
    case Lit(_) =>
    case Ref(_, _) =>
    case Bin(op, l, r) =>
      SentinelHomomorphism(l, st);
      SentinelHomomorphism(r, st);
      DecEnc(OptEval(l, st));
      DecEnc(OptEval(r, st));
      BinExact(op, Enc(OptEval(l, st)), Enc(OptEval(r, st)));
    case Fallback(p, alt) =>
      SentinelHomomorphism(p, st);
      SentinelHomomorphism(alt, st);
    case WaveMerge(c, t, f) =>
      ConditionHomomorphism(c, st);
      SentinelHomomorphism(t, st);
      SentinelHomomorphism(f, st);
    case GuardSelect(base, c) =>
      SentinelHomomorphism(base, st);
      ConditionHomomorphism(c, st);
    case EqProbe(base, probe) =>
      SentinelHomomorphism(base, st);
      SentinelHomomorphism(probe, st);
  }

  lemma {:induction false} ConditionHomomorphism(c: Cond, st: Store)
    requires st.Valid() && SafeCond(c, st)
    ensures EvalCond(c, st) == Some(OptCond(c, st))
    decreases c
  {
    match c
    case NonZero(e) =>
      SentinelHomomorphism(e, st);
    case Cmp(op, l, r) =>
      SentinelHomomorphism(l, st);
      SentinelHomomorphism(r, st);
      DecEnc(OptEval(l, st));
      DecEnc(OptEval(r, st));
      CompareExact(op, Enc(OptEval(l, st)), Enc(OptEval(r, st)));
    case Not(c1) => ConditionHomomorphism(c1, st);
    case And(c1, c2) => ConditionHomomorphism(c1, st); ConditionHomomorphism(c2, st);
    case Or(c1, c2) => ConditionHomomorphism(c1, st); ConditionHomomorphism(c2, st);
    case Xor(c1, c2) => ConditionHomomorphism(c1, st); ConditionHomomorphism(c2, st);
  }

  /** A fallback does not save a division: the undefined dividend is divided first. */
  lemma EagerDivisionTraps(st: Store, b: i64)
    requires st.Valid()
    ensures Eval(Fallback(Bin(Div, Lit(UNDEF), Lit(b)), Lit(7)), st)
         == if b == 0 || b == -1 then None else Some(7)
  {
    assert Eval(Bin(Div, Lit(UNDEF), Lit(b)), st) == EvalBin(Div, UNDEF, b);
  }

  /** The selecting forms on operands that have values: the fallback gives the first value that is
      defined, a wave merge one of two, a guard and a probe give their base or undefined. */
  lemma SelectionsMean(e: Expr, f: Expr, c: Cond, st: Store, a: i64, b: i64, g: bool)
    requires st.Valid() && Eval(e, st) == Some(a) && Eval(f, st) == Some(b) && EvalCond(c, st) == Some(g)
    ensures Eval(Fallback(e, f), st) == Some(if Defined(a) then a else b)
    ensures g ==> Eval(WaveMerge(c, e, f), st) == Some(a) && Eval(GuardSelect(e, c), st) == Some(a)
    ensures !g ==> Eval(WaveMerge(c, e, f), st) == Some(b) && Eval(GuardSelect(e, c), st) == Some(UNDEF)
    ensures a == b ==> Eval(EqProbe(e, f), st) == Some(a)
    ensures a != b ==> Eval(EqProbe(e, f), st) == Some(UNDEF)
  {
  }

  /** Both operands of a connective count; a word is true unless it is 0. */
  lemma ConnectivesMean(c: Cond, d: Cond, e: Expr, st: Store, g: bool, h: bool, a: i64)
    requires st.Valid() && EvalCond(c, st) == Some(g) && EvalCond(d, st) == Some(h) && Eval(e, st) == Some(a)
    ensures EvalCond(Not(c), st) == Some(!g) && EvalCond(NonZero(e), st) != Some(a == 0)
    ensures EvalCond(And(c, d), st) == Some(true) <==> g && h
    ensures EvalCond(Or(c, d), st) == Some(false) <==> !g && !h
    ensures EvalCond(Xor(c, d), st) == Some(false) <==> g == h
  {
  }
}
