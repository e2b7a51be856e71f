/** The int operators shared by the checker, the compiler and the VM (src/ast/consteval.rs): 64-bit
    checked arithmetic, modelled bit for bit on unbounded integers. */
module IntOps {
  import opened Wrappers

  const MIN: int := -0x8000_0000_0000_0000
  const MAX: int := 0x7FFF_FFFF_FFFF_FFFF
  const SPAN: int := 0x1_0000_0000_0000_0000

  predicate Fits(x: int) {
    MIN <= x <= MAX
  }

  datatype BinaryOp =
    | Add | Sub | Mul | Div | Mod | BitAnd | BitOr | BitXor | Shl | Shr
    | Lt | LtEq | Gt | GtEq | Eq | NotEq | And | Or | In

  datatype IntOp = Bin(op: BinaryOp) | Neg | Abs | Lcm | Gcd

  datatype IntFault = Overflow(op: IntOp) | DivByZero | ModByZero | ShiftRange(amount: int)

  predicate IsArithmetic(op: BinaryOp) {
    op in {Add, Sub, Mul, Div, Mod, BitAnd, BitOr, BitXor, Shl, Shr}
  }

  // ----- machine operations -----

  function Pow2(n: nat): (p: int)
    ensures p > 0
  {
    if n == 0 then 1 else 2 * Pow2(n - 1)
  }

  /** The low 64 bits of `x`, read as a signed number. */
  function Wrap(x: int): (w: int)
    ensures Fits(w)
  {
    (x - MIN) % SPAN + MIN
  }

  function Magnitude(x: int): nat {
    if x < 0 then -x else x
  }

  /** Division rounding toward zero. */
  function Quotient(a: int, b: int): int
    requires b != 0
  {
    var q := Magnitude(a) / Magnitude(b);
    if (a < 0) != (b < 0) then -q else q
  }

  /** The remainder with the sign of the dividend. */
  function Remainder(a: int, b: int): int
    requires b != 0
  {
    var r := Magnitude(a) % Magnitude(b);
    if a < 0 then -r else r
  }

  /** `f` applied to every bit of two's complement `a` and `b`. */
  function Bitwise(f: (bool, bool) -> bool, a: int, b: int): int
    decreases Depth(a) + Depth(b)
  {
    if -1 <= a <= 0 && -1 <= b <= 0 then if f(a == -1, b == -1) then -1 else 0
    else 2 * Bitwise(f, a / 2, b / 2) + if f(a % 2 == 1, b % 2 == 1) then 1 else 0
  }

  function Depth(x: int): nat {
    if x < 0 then -x - 1 else x
  }

  predicate BothSet(x: bool, y: bool) { x && y }

  predicate EitherSet(x: bool, y: bool) { x || y }

  predicate OneSet(x: bool, y: bool) { x != y }

  function Checked(op: IntOp, x: int): Result<int, IntFault> {
    if Fits(x) then Ok(x) else Err(Overflow(op))
  }

  // ----- the operators -----

  /** The fault the right operand alone causes. */
  function OperandFault(op: BinaryOp, b: int): Option<IntFault> {
    match op
    case Div => if b == 0 then Some(DivByZero) else None
    case Mod => if b == 0 then Some(ModByZero) else None
    case Shl => if 0 <= b < 64 then None else Some(ShiftRange(b))
    case Shr => if 0 <= b < 64 then None else Some(ShiftRange(b))
    case _ => None
  }

  function IntNeg(a: int): Result<int, IntFault> {
    Checked(Neg, -a)
  }

  function IntBinop(op: BinaryOp, a: int, b: int): Option<Result<int, IntFault>> {
    if OperandFault(op, b).Some? then Some(Err(OperandFault(op, b).value))
    else match op
      case Add => Some(Checked(Bin(op), a + b))
      case Sub => Some(Checked(Bin(op), a - b))
      case Mul => Some(Checked(Bin(op), a * b))
      case Div => Some(Checked(Bin(op), Quotient(a, b)))
      case Mod => Some(Ok(Remainder(a, b)))
      case BitAnd => Some(Ok(Bitwise(BothSet, a, b)))
      case BitOr => Some(Ok(Bitwise(EitherSet, a, b)))
      case BitXor => Some(Ok(Bitwise(OneSet, a, b)))
      case Shl =>
        var v := Wrap(a * Pow2(b));
        Some(if v / Pow2(b) == a then Ok(v) else Err(Overflow(Bin(op))))
      case Shr => Some(Ok(a / Pow2(b)))
      case _ => None
  }

  // ----- what they mean -----

  /** Truncating division: `a` is `q` times `b` plus a remainder smaller than `b` that is zero or has
      the sign of `a`. */
  ghost predicate Truncated(a: int, b: int, q: int, r: int) {
    a == q * b + r && Magnitude(r) < Magnitude(b) && (r != 0 ==> (r < 0 <==> a < 0))
  }

  ghost predicate Bit(x: int, n: nat)
    decreases n
  {
    if n == 0 then x % 2 == 1 else Bit(x / 2, n - 1)
  }

  /** Every bit of `v` is `f` of that bit of `a` and of `b`. */
  ghost predicate BitsAre(f: (bool, bool) -> bool, a: int, b: int, v: int) {
    forall n: nat :: Bit(v, n) == f(Bit(a, n), Bit(b, n))
  }

  /** `v` is the mathematical result of `a op b`. */
  ghost predicate Means(op: BinaryOp, a: int, b: int, v: int) {
    match op
    case Add => v == a + b
    case Sub => v == a - b
    case Mul => v == a * b
    case Div => exists r :: Truncated(a, b, v, r)
    case Mod => exists q :: Truncated(a, b, q, v)
    case BitAnd => forall n: nat :: Bit(v, n) <==> Bit(a, n) && Bit(b, n)
    case BitOr => forall n: nat :: Bit(v, n) <==> Bit(a, n) || Bit(b, n)
    case BitXor => forall n: nat :: Bit(v, n) <==> Bit(a, n) != Bit(b, n)
    case Shl => 0 <= b < 64 && v == a * Pow2(b)
    case Shr => 0 <= b < 64 && v * Pow2(b) <= a < (v + 1) * Pow2(b)
    case _ => false
  }

  // ----- division -----

  lemma MulAtLeast(d: int, k: nat)
    requires d >= 1
    ensures d * k >= k
  {
    assert d * k == (d - 1) * k + k;
  }

  /** A multiple of `b` smaller than `b` is zero. */
  lemma SmallMultiple(d: int, b: int)
    requires Magnitude(d * b) < Magnitude(b)
    ensures d == 0
  {
    if d != 0 {
      assert d * b == (-d) * (-b) && d * (-b) == -(d * b) && (-d) * b == -(d * b);
      MulAtLeast(Magnitude(d), Magnitude(b));
    }
  }

  lemma QuotientIsTruncated(a: int, b: int)
    requires b != 0
    ensures Truncated(a, b, Quotient(a, b), Remainder(a, b))
  {
    var x, y := Magnitude(a), Magnitude(b);
    assert x == y * (x / y) + x % y;
    if b < 0 { assert -(x / y) * b == y * (x / y); } else { assert (x / y) * b == y * (x / y); }
  }

  lemma TruncatedIsUnique(a: int, b: int, q: int, r: int, q': int, r': int)
    requires b != 0 && Truncated(a, b, q, r) && Truncated(a, b, q', r')
    ensures q == q' && r == r'
  {
    assert (q - q') * b == r' - r;
    SmallMultiple(q - q', b);
  }

  // ----- shifts -----

  lemma {:induction false} Pow2Sum(a: nat, b: nat)
    ensures Pow2(a + b) == Pow2(a) * Pow2(b)
  {
    if a > 0 { Pow2Sum(a - 1, b); }
  }

  lemma DivMultiple(k: int, p: int)
    requires p > 0
    ensures k * p / p == k
  {
    var q, r := k * p / p, (k * p) % p;
    assert k * p == p * q + r;
    assert (k - q) * p == r;
    SmallMultiple(k - q, p);
  }

  lemma WrapOfMultiple(a: int, p: int, r: int)
    requires p > 0 && r > 0 && r * p == SPAN
    ensures Wrap(a * p) / p == a <==> Fits(a * p)
    ensures Fits(a * p) ==> Wrap(a * p) == a * p
  {
    var x := a * p;
    var k := (x - MIN) / SPAN;
    assert Wrap(x) == x - k * SPAN;
    assert k * SPAN == (k * r) * p by { assert k * (r * p) == (k * r) * p; }
    assert x - (k * r) * p == (a - k * r) * p;
    DivMultiple(a - k * r, p);
    if k > 0 { MulAtLeast(k, r); } else if k < 0 { MulAtLeast(-k, r); assert (-k) * r == -(k * r); }
  }

  /** The shift-back test is exact: the shifted bits come back iff none was lost. */
  lemma ShiftBackIsExact(a: int, b: nat)
    requires b < 64
    ensures Wrap(a * Pow2(b)) / Pow2(b) == a <==> Fits(a * Pow2(b))
    ensures Fits(a * Pow2(b)) ==> Wrap(a * Pow2(b)) == a * Pow2(b)
  {
    Pow2Sum(64 - b, b);
    Pow2Of64();
    WrapOfMultiple(a, Pow2(b), Pow2(64 - b));
  }

  lemma Pow2Of64()
    ensures Pow2(64) == SPAN
  {
    assert Pow2(8) == 256;
    Pow2Sum(8, 8);
    Pow2Sum(16, 16);
    Pow2Sum(32, 32);
  }

  lemma FloorIsUnique(a: int, p: int, v: int)
    requires p > 0
    ensures v == a / p <==> v * p <= a < (v + 1) * p
  {
    var q := a / p;
    assert a == q * p + a % p;
    if v < q { Widens(v + 1, q, p); } else if v > q { Widens(q + 1, v, p); }
    assert (q + 1) * p == q * p + p;
  }

  lemma Widens(x: int, y: int, p: int)
    requires p > 0 && x <= y
    ensures x * p <= y * p
  {
    assert (y - x) * p >= 0;
  }

  // ----- bits -----

  lemma {:induction false} BitwiseBit(f: (bool, bool) -> bool, a: int, b: int, n: nat)
    ensures Bit(Bitwise(f, a, b), n) == f(Bit(a, n), Bit(b, n))
    decreases n
  {
    var v := Bitwise(f, a, b);
    if n > 0 {
      BitwiseBit(f, a / 2, b / 2, n - 1);
      BitwiseHalves(f, a, b);
    }
  }

  lemma BitwiseHalves(f: (bool, bool) -> bool, a: int, b: int)
    ensures Bitwise(f, a, b) / 2 == Bitwise(f, a / 2, b / 2)
  {
  }

  lemma {:induction false} SameBits(a: int, b: int)
    requires forall n: nat :: Bit(a, n) == Bit(b, n)
    ensures a == b
    decreases Depth(a) + Depth(b)
  {
    assert Bit(a, 0) == Bit(b, 0);
    if !(-1 <= a <= 0 && -1 <= b <= 0) {
      forall n: nat ensures Bit(a / 2, n) == Bit(b / 2, n) { assert Bit(a, n + 1) == Bit(b, n + 1); }
      SameBits(a / 2, b / 2);
    }
  }

  lemma {:induction false} BitwiseFits(f: (bool, bool) -> bool, a: int, b: int, k: nat)
    requires -Pow2(k) <= a < Pow2(k) && -Pow2(k) <= b < Pow2(k)
    ensures -Pow2(k) <= Bitwise(f, a, b) < Pow2(k)
    decreases k
  {
    if k > 0 && !(-1 <= a <= 0 && -1 <= b <= 0) { BitwiseFits(f, a / 2, b / 2, k - 1); }
  }

  // ----- the two theorems -----

  lemma Pow2Of63()
    ensures -Pow2(63) == MIN && Pow2(63) == MAX + 1
  {
    Pow2Of64();
    assert Pow2(64) == 2 * Pow2(63);
  }

  /** An operator succeeds exactly when it is defined on its operands and its mathematical result is
      a 64-bit number, and then gives that result. */
  lemma BinopIsExact(op: BinaryOp, a: int, b: int, v: int)
    requires Fits(a) && Fits(b)
    ensures IntBinop(op, a, b) == Some(Ok(v)) <==> Means(op, a, b, v) && Fits(v)
  {
    match op
    case Add =>
    case Sub =>
    case Mul =>
    case Div => DivisionIsExact(op, a, b, v);
    case Mod => DivisionIsExact(op, a, b, v);
    case Shl => ShiftIsExact(op, a, b, v);
    case Shr => ShiftIsExact(op, a, b, v);
    case BitAnd => BitwiseIsExact(BothSet, a, b, v);
    case BitOr => BitwiseIsExact(EitherSet, a, b, v);
    case BitXor => BitwiseIsExact(OneSet, a, b, v);
    case _ =>
  }

  /** Which fault it is, and which operators are not int arithmetic at all. */
  lemma FaultsByName(op: BinaryOp, a: int, b: int)
    ensures IntBinop(op, a, b) == Some(Err(DivByZero)) <==> op == Div && b == 0
    ensures IntBinop(op, a, b) == Some(Err(ModByZero)) <==> op == Mod && b == 0
    ensures IntBinop(op, a, b) == Some(Err(ShiftRange(b))) <==> (op == Shl || op == Shr) && !(0 <= b <= 63)
    ensures IntBinop(op, a, b).None? <==> op in {Lt, LtEq, Gt, GtEq, Eq, NotEq, And, Or, In}
  {
  }

  /** Unary minus gives the number that cancels its operand, and faults for the one that has none. */
  lemma NegIsExact(a: int, v: int)
    requires Fits(a)
    ensures IntNeg(a) == Ok(v) <==> v + a == 0 && Fits(v)
    ensures IntNeg(a) == Err(Overflow(Neg)) <==> a == -0x8000_0000_0000_0000
    ensures IntNeg(a).Err? ==> IntNeg(a).error == Overflow(Neg)
  {
  }

  lemma DivisionIsExact(op: BinaryOp, a: int, b: int, v: int)
    requires op in {Div, Mod} && Fits(a) && Fits(b)
    ensures IntBinop(op, a, b) == Some(Ok(v)) <==> Means(op, a, b, v) && Fits(v)
  {
    if b != 0 {
      QuotientIsExact(a, b, v);
      RemainderIsExact(a, b, v);
    }
  }

  lemma ShiftIsExact(op: BinaryOp, a: int, b: int, v: int)
    requires op in {Shl, Shr} && Fits(a) && Fits(b)
    ensures IntBinop(op, a, b) == Some(Ok(v)) <==> Means(op, a, b, v) && Fits(v)
  {
    if 0 <= b < 64 {
      if op == Shl {
        ShiftBackIsExact(a, b);
      } else {
        FloorIsUnique(a, Pow2(b), v);
        ShrFits(a, b);
      }
    }
  }

  lemma QuotientIsExact(a: int, b: int, v: int)
    requires b != 0
    ensures v == Quotient(a, b) <==> exists r :: Truncated(a, b, v, r)
  {
    QuotientIsTruncated(a, b);
    if r :| Truncated(a, b, v, r) { TruncatedIsUnique(a, b, v, r, Quotient(a, b), Remainder(a, b)); }
  }

  lemma RemainderIsExact(a: int, b: int, v: int)
    requires b != 0
    ensures v == Remainder(a, b) <==> exists q :: Truncated(a, b, q, v)
    ensures Fits(b) ==> Fits(Remainder(a, b))
  {
    QuotientIsTruncated(a, b);
    if q :| Truncated(a, b, q, v) { TruncatedIsUnique(a, b, q, v, Quotient(a, b), Remainder(a, b)); }
  }

  lemma ShrFits(a: int, b: nat)
    requires Fits(a)
    ensures Fits(a / Pow2(b))
  {
    var q, p := a / Pow2(b), Pow2(b);
    FloorIsUnique(a, p, q);
    if q >= 0 { MulAtLeast(p, q); } else { MulAtLeast(p, -(q + 1)); assert p * -(q + 1) == -((q + 1) * p); }
  }

  lemma BitwiseIsExact(f: (bool, bool) -> bool, a: int, b: int, v: int)
    requires Fits(a) && Fits(b)
    ensures v == Bitwise(f, a, b) <==> BitsAre(f, a, b, v)
    ensures Fits(Bitwise(f, a, b))
  {
    Pow2Of63();
    BitwiseFits(f, a, b, 63);
    var w := Bitwise(f, a, b);
    forall n: nat ensures Bit(w, n) == f(Bit(a, n), Bit(b, n)) { BitwiseBit(f, a, b, n); }
    if BitsAre(f, a, b, v) {
      forall n: nat ensures Bit(v, n) == Bit(w, n) { assert Bit(v, n) == f(Bit(a, n), Bit(b, n)); }
      SameBits(v, w);
    }
  }

  /** The right operand alone is at fault exactly when the operator faults whatever the left operand
      is, and then with that same fault. */
  lemma OperandFaultIsExact(op: BinaryOp, b: int)
    requires Fits(b)
    ensures OperandFault(op, b).Some? <==> forall a :: Fits(a) ==> Faults(op, a, b)
    ensures OperandFault(op, b).Some? ==>
              forall a :: Fits(a) ==> IntBinop(op, a, b) == Some(Err(OperandFault(op, b).value))
  {
    var x := if op == Sub then b else 0;
    if OperandFault(op, b).None? {
      if op == Shl { ShiftBackIsExact(0, b); }
      assert Fits(x) && !Faults(op, x, b);
    }
  }

  ghost predicate Faults(op: BinaryOp, a: int, b: int) {
    IntBinop(op, a, b).Some? && IntBinop(op, a, b).value.Err?
  }

  /** When both operands are acceptable the only fault is an overflow, and then the mathematical
      result is a number that does not fit. */
  lemma OverflowIsGenuine(op: BinaryOp, a: int, b: int)
    requires Fits(a) && Fits(b) && OperandFault(op, b).None? && Faults(op, a, b)
    ensures IntBinop(op, a, b) == Some(Err(Overflow(Bin(op))))
    ensures exists v :: Means(op, a, b, v) && !Fits(v)
  {
    match op
    case Add => assert Means(op, a, b, a + b);
    case Sub => assert Means(op, a, b, a - b);
    case Mul => assert Means(op, a, b, a * b);
    case Div => QuotientIsTruncated(a, b); assert Means(op, a, b, Quotient(a, b));
    case Shl => ShiftBackIsExact(a, b); assert Means(op, a, b, a * Pow2(b));
    case _ =>
  }
}
