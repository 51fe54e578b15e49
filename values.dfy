/** The value model of the interpreter (src/executor.rs): the closed
    variant `RelType`, the three-way outcome `ExecResult`, and the
    operand-level semantics of arithmetic, `Eq` and `Lt`. */
module Values {

  /** An f64 as its IEEE-754 binary64 bit pattern. Comparison and the zero
      test are written out on the bits below; rounding arithmetic and the
      `{:?}` text of a float are supplied from outside (`FloatOps`). */
  type F64 = bv64

  datatype RelType =
    | Int(i: int)
    | Float(f: F64)
    | Bool(b: bool)
    | Str(s: string)
    | Void

  datatype ExecResult =
    | Value(v: RelType)
    | ReturnBlockInfo(v: RelType)
    | Fault(msg: string)

  /** The IEEE-754 operations the interpreter borrows from the host. */
  datatype FloatOps = FloatOps(
    add: (F64, F64) -> F64,
    sub: (F64, F64) -> F64,
    mul: (F64, F64) -> F64,
    div: (F64, F64) -> F64,
    debug: F64 -> string)

  datatype MathOp = Plus | Minus | Times | Divide

  const DivisionByZero := "Division by zero"
  const TypeMismatch := "Mathematical type mismatch"
  const InvalidEq := "Invalid Eq semantics"
  const InvalidLt := "Invalid Lt semantics"

  // ----- binary64 bit-level predicates -----

  const SignBit: F64 := 0x8000_0000_0000_0000
  const MagnitudeBits: F64 := 0x7FFF_FFFF_FFFF_FFFF
  const ExponentBits: F64 := 0x7FF0_0000_0000_0000
  const FractionBits: F64 := 0x000F_FFFF_FFFF_FFFF

  predicate IsNaN(x: F64) {
    x & ExponentBits == ExponentBits && x & FractionBits != 0
  }

  /** `x == 0.0` in IEEE terms: true of +0.0 and -0.0. */
  predicate IsZero(x: F64) {
    x & MagnitudeBits == 0
  }

  predicate IsNegative(x: F64) {
    x & SignBit != 0
  }

  /** IEEE `==`: NaN equals nothing, +0.0 equals -0.0. */
  predicate FloatEq(a: F64, b: F64): (eq: bool)
    ensures IsNaN(a) || IsNaN(b) ==> !eq
    ensures !IsNaN(a) && IsZero(a) && IsZero(b) ==> eq
    ensures eq ==> a == b || (IsZero(a) && IsZero(b))
    ensures !IsNaN(a) && a == b ==> eq
  {
    !IsNaN(a) && !IsNaN(b) && (a == b || (IsZero(a) && IsZero(b)))
  }

  /** IEEE `<` on sign-magnitude patterns. */
  predicate FloatLt(a: F64, b: F64): (lt: bool)
    ensures lt ==> !IsNaN(a) && !IsNaN(b) && !(IsZero(a) && IsZero(b))
  {
    if IsNaN(a) || IsNaN(b) || (IsZero(a) && IsZero(b)) then false
    else if IsNegative(a) && !IsNegative(b) then true
    else if !IsNegative(a) && IsNegative(b) then false
    else if !IsNegative(a) then a & MagnitudeBits < b & MagnitudeBits
    else b & MagnitudeBits < a & MagnitudeBits
  }

  /** IEEE `<` never holds between a value and itself. */
  lemma FloatLtIrreflexive(a: F64)
    ensures !FloatLt(a, a)
  {
  }

  /** IEEE `<` is false whenever a NaN takes part. */
  lemma FloatLtNaN(a: F64, b: F64)
    ensures IsNaN(a) || IsNaN(b) ==> !FloatLt(a, b)
  {
  }

  /** IEEE `<` never holds both ways. */
  lemma FloatLtAsymmetric(a: F64, b: F64)
    ensures FloatLt(a, b) ==> !FloatLt(b, a)
  {
  }

  /** A negative float is below a non-negative one unless both are zeros,
      and among non-negative floats a larger magnitude is larger. */
  lemma FloatLtSignOrder(a: F64, b: F64)
    requires !IsNaN(a) && !IsNaN(b) && !(IsZero(a) && IsZero(b))
    ensures IsNegative(a) && !IsNegative(b) ==> FloatLt(a, b)
    ensures !IsNegative(a) && !IsNegative(b) ==>
      (FloatLt(a, b) <==> a & MagnitudeBits < b & MagnitudeBits)
  {
  }

  /** Floats that are `==` are not `<` one another: in particular
      `-0.0 < +0.0` is false. */
  lemma FloatLtExcludesEq(a: F64, b: F64)
    ensures FloatEq(a, b) ==> !FloatLt(a, b) && !FloatLt(b, a)
  {
  }

  // ----- integers -----

  function Abs(x: int): nat {
    if x < 0 then -x else x
  }

  lemma DivNonNegative(x: nat, y: nat)
    requires y > 0
    ensures x / y >= 0
  {
  }

  /** Rust's `i64 / i64`: the quotient truncated toward zero, so its
      magnitude is the floor of the operands' magnitudes and its sign is
      negative only when exactly one operand is. */
  function TruncDiv(a: int, b: int): (q: int)
    requires b != 0
    ensures Abs(q) == Abs(a) / Abs(b)
    ensures q < 0 ==> (a < 0) != (b < 0)
    ensures q > 0 ==> (a < 0) == (b < 0)
  {
    DivNonNegative(Abs(a), Abs(b));
    var m := Abs(a) / Abs(b);
    if (a < 0) == (b < 0) then m else -m
  }

  /** Truncating division leaves a remainder smaller than the divisor that
      carries the sign of the dividend. */
  lemma TruncDivRemainder(a: int, b: int)
    requires b != 0
    ensures var rem := a - TruncDiv(a, b) * b;
      Abs(rem) < Abs(b) && (rem == 0 || (rem < 0 <==> a < 0))
    ensures Abs(TruncDiv(a, b) * b) <= Abs(a)
  {
    var A: int, B: int := Abs(a), Abs(b);
    var q, r := A / B, A % B;
    assert A == q * B + r && 0 <= r < B;
    DivNonNegative(A, B);
    SignedRemainder(a, b, TruncDiv(a, b), q, r);
  }

  /** The sign bookkeeping behind `TruncDivRemainder`, with the quotient
      and remainder of the magnitudes given. */
  lemma SignedRemainder(a: int, b: int, t: int, q: int, r: int)
    requires b != 0 && 0 <= q && Abs(a) == q * Abs(b) + r && 0 <= r < Abs(b)
    requires t == if (a < 0) == (b < 0) then q else -q
    ensures var rem := a - t * b;
      Abs(rem) < Abs(b) && (rem == 0 || (rem < 0 <==> a < 0))
    ensures Abs(t * b) <= Abs(a)
  {
    var B: int := Abs(b);
    var p := q * B;
    assert 0 <= p;
    SignedProduct(q, B);
    if a < 0 {
      assert t * b == -p by {
        if b < 0 { assert t == q && b == -B; } else { assert t == -q && b == B; }
      }
    } else {
      assert t * b == p by {
        if b < 0 { assert t == -q && b == -B; } else { assert t == q && b == B; }
      }
    }
  }

  lemma SignedProduct(x: int, y: int)
    ensures (-x) * y == -(x * y) && x * (-y) == -(x * y) && (-x) * (-y) == x * y
  {
  }

  // ----- operand-level semantics -----

  /** The derived `PartialEq` of `RelType`: variant and payload together;
      floats compare by IEEE `==`. */
  predicate ValueEq(a: RelType, b: RelType): (eq: bool)
    ensures !(a.Float? && b.Float?) ==> (eq <==> a == b)
    ensures a.Float? && b.Float? ==> (eq <==> FloatEq(a.f, b.f))
  {
    match (a, b)
    case (Int(x), Int(y)) => x == y
    case (Float(x), Float(y)) => FloatEq(x, y)
    case (Bool(x), Bool(y)) => x == y
    case (Str(x), Str(y)) => x == y
    case (Void, Void) => true
    case _ => false
  }

  predicate SameVariant(a: RelType, b: RelType) {
    (a.Int? && b.Int?) || (a.Float? && b.Float?) || (a.Bool? && b.Bool?)
    || (a.Str? && b.Str?) || (a.Void? && b.Void?)
  }

  /** Equality never crosses variants (Int(1) vs Float(1.0) is false), and
      every value except a NaN float equals itself. */
  lemma ValueEqVariantSensitive(a: RelType, b: RelType)
    ensures ValueEq(a, b) ==> SameVariant(a, b)
    ensures ValueEq(a, b) && !a.Float? ==> a == b
    ensures !(a.Float? && IsNaN(a.f)) ==> ValueEq(a, a)
    ensures ValueEq(a, b) == ValueEq(b, a)
  {
  }

  /** `do_math` once both operands are evaluated. */
  function DoMath(fp: FloatOps, op: MathOp, lv: ExecResult, rv: ExecResult): (r: ExecResult)
    ensures !r.ReturnBlockInfo?
    ensures lv.Fault? ==> r == lv
    ensures !lv.Fault? && rv.Fault? ==> r == rv
    ensures lv.Value? && rv.Value? && !(lv.v.Int? && rv.v.Int?) && !(lv.v.Float? && rv.v.Float?) ==>
              r == Fault(TypeMismatch)
    ensures (lv.ReturnBlockInfo? || rv.ReturnBlockInfo?) && !lv.Fault? && !rv.Fault? ==>
              r == Fault(TypeMismatch)
    ensures r.Value? ==> lv.Value? && rv.Value? && SameVariant(lv.v, rv.v) && SameVariant(r.v, lv.v)
    ensures lv.Value? && lv.v.Int? && rv.Value? && rv.v.Int? ==>
              (r.Value? <==> !(op == Divide && rv.v.i == 0))
    ensures lv.Value? && lv.v.Float? && rv.Value? && rv.v.Float? ==>
              (r.Value? <==> !(op == Divide && IsZero(rv.v.f)))
    ensures lv.Value? && rv.Value? && r == Fault(DivisionByZero) ==> op == Divide
    // Int op Int: the exact `i64` result, `/` truncating toward zero
    ensures lv.Value? && lv.v.Int? && rv.Value? && rv.v.Int? ==>
              && (op == Plus ==> r == Value(Int(lv.v.i + rv.v.i)))
              && (op == Minus ==> r == Value(Int(lv.v.i - rv.v.i)))
              && (op == Times ==> r == Value(Int(lv.v.i * rv.v.i)))
              && (op == Divide && rv.v.i == 0 ==> r == Fault(DivisionByZero))
              && (op == Divide && rv.v.i != 0 ==> r == Value(Int(TruncDiv(lv.v.i, rv.v.i))))
    // Float op Float: the host's IEEE operation, and a zero divisor of either sign faults
    ensures lv.Value? && lv.v.Float? && rv.Value? && rv.v.Float? ==>
              && (op == Plus ==> r == Value(Float(fp.add(lv.v.f, rv.v.f))))
              && (op == Minus ==> r == Value(Float(fp.sub(lv.v.f, rv.v.f))))
              && (op == Times ==> r == Value(Float(fp.mul(lv.v.f, rv.v.f))))
              && (op == Divide && IsZero(rv.v.f) ==> r == Fault(DivisionByZero))
              && (op == Divide && !IsZero(rv.v.f) ==> r == Value(Float(fp.div(lv.v.f, rv.v.f))))
  {
    match (lv, rv)
    case (Value(Int(a)), Value(Int(b))) =>
      (match op
       case Plus => Value(Int(a + b))
       case Minus => Value(Int(a - b))
       case Times => Value(Int(a * b))
       case Divide => if b == 0 then Fault(DivisionByZero) else Value(Int(TruncDiv(a, b))))
    case (Value(Float(a)), Value(Float(b))) =>
      (match op
       case Plus => Value(Float(fp.add(a, b)))
       case Minus => Value(Float(fp.sub(a, b)))
       case Times => Value(Float(fp.mul(a, b)))
       case Divide => if IsZero(b) then Fault(DivisionByZero) else Value(Float(fp.div(a, b))))
    case (Fault(m), _) => Fault(m)
    case (_, Fault(m)) => Fault(m)
    case _ => Fault(TypeMismatch)
  }

  /** The `Eq` node once both operands are evaluated. */
  function EqOutcome(lv: ExecResult, rv: ExecResult): (r: ExecResult)
    ensures lv.Value? && rv.Value? ==> r == Value(Bool(ValueEq(lv.v, rv.v)))
    ensures lv.Fault? ==> r == lv
    ensures !lv.Fault? && rv.Fault? ==> r == rv
    ensures !lv.Fault? && !rv.Fault? && !(lv.Value? && rv.Value?) ==> r == Fault(InvalidEq)
  {
    match (lv, rv)
    case (Value(a), Value(b)) => Value(Bool(ValueEq(a, b)))
    case (Fault(m), _) => Fault(m)
    case (_, Fault(m)) => Fault(m)
    case _ => Fault(InvalidEq)
  }

  /** The `Lt` node once both operands are evaluated. */
  function LtOutcome(lv: ExecResult, rv: ExecResult): (r: ExecResult)
    ensures r.Value? <==> lv.Value? && rv.Value? && ((lv.v.Int? && rv.v.Int?) || (lv.v.Float? && rv.v.Float?))
    ensures r.Value? ==> r.v.Bool?
    ensures lv.Fault? ==> r == lv
    ensures !lv.Fault? && rv.Fault? ==> r == rv
    ensures !lv.Fault? && !rv.Fault? && !r.Value? ==> r == Fault(InvalidLt)
    ensures lv.Value? && lv.v.Int? && rv.Value? && rv.v.Int? ==> r == Value(Bool(lv.v.i < rv.v.i))
    ensures lv.Value? && lv.v.Float? && rv.Value? && rv.v.Float? ==> r == Value(Bool(FloatLt(lv.v.f, rv.v.f)))
  {
    match (lv, rv)
    case (Value(Int(a)), Value(Int(b))) => Value(Bool(a < b))
    case (Value(Float(a)), Value(Float(b))) => Value(Bool(FloatLt(a, b)))
    case (Fault(m), _) => Fault(m)
    case (_, Fault(m)) => Fault(m)
    case _ => Fault(InvalidLt)
  }
}
