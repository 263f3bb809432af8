/**
 * The expression language the hyperbolic rewrite rules work on.
 *
 * Only the shapes the rules inspect or build are distinguished; every other
 * SymPy construct (circular functions, log, sqrt, arithmetic) is an opaque
 * constructor that this model never simplifies.
 */
module HyperbolicExpr {

  /** The eight function classes of the family. */
  datatype Kind = Sinh | Cosh | Tanh | Coth | Asinh | Acosh | Atanh | Acoth

  /**
   * SymPy functions this model never simplifies: the circular functions the
   * imaginary-unit bridge produces, the natural logarithm and the square root.
   */
  datatype Func = Sin | Cos | Tan | Cot | Asin | Acos | Atan | Acot | Ln | Root

  /** SymPy arithmetic, kept as written. */
  datatype Op = Plus | Minus | Times | Over | Power

  /**
   * Symbolic expressions. The numbers 0, 1 and -1 are the literals Num(0.0),
   * Num(1.0) and Num(-1.0); NaN, the two real infinities and complex infinity
   * are separate sentinels. ImagMul(c) is c times the imaginary unit, so the
   * imaginary unit itself is ImagMul(Num(1.0)). A syntactically negated
   * expression is Neg(e). Sym(id) is a free symbol.
   */
  datatype Expr =
    | NaN
    | Infinity
    | NegInfinity
    | ComplexInfinity
    | Num(r: real)
    | Pi
    | Sym(id: nat)
    | Neg(e: Expr)
    | ImagMul(c: Expr)
    | App(kind: Kind, arg: Expr)
    | Call(f: Func, x: Expr)
    | Bin(op: Op, a: Expr, b: Expr)

  function Trig(f: Func, x: Expr): Expr { Call(f, x) }
  function Log(x: Expr): Expr { Call(Ln, x) }
  function Sqrt(x: Expr): Expr { Call(Root, x) }
  function Add(a: Expr, b: Expr): Expr { Bin(Plus, a, b) }
  function Sub(a: Expr, b: Expr): Expr { Bin(Minus, a, b) }
  function Mul(a: Expr, b: Expr): Expr { Bin(Times, a, b) }
  function Div(a: Expr, b: Expr): Expr { Bin(Over, a, b) }
  function Pow(a: Expr, b: Expr): Expr { Bin(Power, a, b) }

  const Zero: Expr := Num(0.0)
  const One: Expr := Num(1.0)
  const NegOne: Expr := Num(-1.0)
  /** The imaginary unit. */
  const I: Expr := ImagMul(One)

  /** q*pi, written as SymPy writes a rational multiple of pi. */
  function PiTimes(q: real): Expr {
    if q == 1.0 then Pi else Mul(Num(q), Pi)
  }

  /** pi*I/2. */
  const HalfPiI: Expr := ImagMul(PiTimes(0.5))

  /** The number of constructors in an expression tree. */
  function Size(e: Expr): nat {
    match e
    case Neg(x) => 1 + Size(x)
    case ImagMul(x) => 1 + Size(x)
    case App(_, x) => 1 + Size(x)
    case Call(_, x) => 1 + Size(x)
    case Bin(_, a, b) => 1 + Size(a) + Size(b)
    case _ => 1
  }

  /** SymPy's `is_Number`: a numeric literal, NaN or a real infinity (not complex infinity). */
  predicate IsNumber(e: Expr) {
    e.Num? || e.NaN? || e.Infinity? || e.NegInfinity?
  }

  /** SymPy's `is_negative` on a number. */
  predicate IsNegativeNumber(e: Expr) {
    (e.Num? && e.r < 0.0) || e.NegInfinity?
  }

  /**
   * SymPy's `_coeff_isneg`: a negative number, or an expression written
   * with a leading minus sign.
   */
  predicate CoeffIsNeg(e: Expr) {
    IsNegativeNumber(e) || e.Neg?
  }

  /** 1 for an expression with a leading minus sign, else 0 (a termination measure). */
  function NegRank(e: Expr): nat {
    if CoeffIsNeg(e) then 1 else 0
  }

  /** SymPy's `is_number`: an expression without free symbols. */
  predicate IsConstant(e: Expr) {
    match e
    case Sym(_) => false
    case Neg(x) => IsConstant(x)
    case ImagMul(x) => IsConstant(x)
    case App(_, x) => IsConstant(x)
    case Call(_, x) => IsConstant(x)
    case Bin(_, a, b) => IsConstant(a) && IsConstant(b)
    case _ => true
  }

  /**
   * SymPy's unary minus: numbers and infinities flip, a leading minus sign
   * cancels, -(c*I) is (-c)*I, and anything else gains a leading minus sign.
   */
  function Negate(e: Expr): (r: Expr)
    ensures CoeffIsNeg(e) ==> Size(r) < Size(e) || (Size(r) == Size(e) && !CoeffIsNeg(r))
  {
    match e
    case Num(x) => Num(-x)
    case Infinity => NegInfinity
    case NegInfinity => Infinity
    case NaN => NaN
    case ComplexInfinity => ComplexInfinity
    case Neg(x) => x
    case ImagMul(c) => ImagMul(Negate(c))
    case _ => Neg(e)
  }

  /**
   * A sign-definite, non-negated expression: a positive literal, +oo, or a
   * compound term that carries no leading sign of its own.
   */
  predicate Positive(e: Expr) {
    match e
    case Num(x) => x > 0.0
    case Infinity => true
    case NegInfinity => false
    case NaN => false
    case ComplexInfinity => false
    case Neg(_) => false
    case ImagMul(_) => false
    case _ => true
  }

  /** Negating a positive expression gives a negated one, and negating again restores it. */
  lemma NegatePositive(e: Expr)
    requires Positive(e)
    ensures CoeffIsNeg(Negate(e)) && !CoeffIsNeg(e)
    ensures Negate(Negate(e)) == e
  {
  }

  /**
   * The argument `-arg` of the parity rule is never itself negated, so the
   * parity rule recurses at most once.
   */
  lemma NegatedArgumentIsNotNegated(e: Expr)
    requires CoeffIsNeg(e)
    requires e.Neg? ==> !CoeffIsNeg(e.e)
    ensures !CoeffIsNeg(Negate(e))
  {
  }
}
