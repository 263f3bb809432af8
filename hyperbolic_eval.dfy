/**
 * Construction-time canonicalisation (`eval`) of sinh, cosh, tanh, coth,
 * asinh, acosh, atanh and acoth: a first-match-wins chain of tests on the
 * argument that yields a replacement expression or None ("unchanged").
 */
module HyperbolicEval {
  import opened Wrappers
  import opened HyperbolicExpr

  predicate IsDirect(k: Kind) {
    k == Sinh || k == Cosh || k == Tanh || k == Coth
  }

  /** The functions whose parity rule flips the sign: all but cosh. */
  predicate IsOdd(k: Kind) {
    k != Cosh
  }

  /**
   * The sentinel rows of the `is_Number` branch: NaN, +oo, -oo, 0 and, for the
   * inverse functions, 1 and -1. None means that no row matched.
   */
  function NumberSentinel(k: Kind, arg: Expr): Option<Expr> {
    if arg == NaN then Some(NaN)
    else match k
      case Sinh =>
        if arg == Infinity then Some(Infinity)
        else if arg == NegInfinity then Some(NegInfinity)
        else if arg == Zero then Some(Zero)
        else None
      case Cosh =>
        if arg == Infinity then Some(Infinity)
        else if arg == NegInfinity then Some(Infinity)
        else if arg == Zero then Some(One)
        else None
      case Tanh =>
        if arg == Infinity then Some(One)
        else if arg == NegInfinity then Some(NegOne)
        else if arg == Zero then Some(Zero)
        else None
      case Coth =>
        // coth(0) is 0 as SymPy writes it
        if arg == Infinity then Some(One)
        else if arg == NegInfinity then Some(NegOne)
        else if arg == Zero then Some(Zero)
        else None
      case Asinh =>
        if arg == Infinity then Some(Infinity)
        else if arg == NegInfinity then Some(NegInfinity)
        else if arg == Zero then Some(Zero)
        else if arg == One then Some(Log(Add(Sqrt(Num(2.0)), One)))
        else if arg == NegOne then Some(Log(Sub(Sqrt(Num(2.0)), One)))
        else None
      case Acosh =>
        if arg == Infinity then Some(Infinity)
        else if arg == NegInfinity then Some(Infinity)
        else if arg == Zero then Some(HalfPiI)
        else if arg == One then Some(Zero)
        else if arg == NegOne then Some(ImagMul(Pi))
        else None
      case Atanh =>
        if arg == Zero then Some(Zero)
        else if arg == One then Some(Infinity)
        else if arg == NegOne then Some(NegInfinity)
        else if arg == Infinity then Some(ImagMul(Neg(Trig(Atan, Infinity))))
        else if arg == NegInfinity then Some(ImagMul(Trig(Atan, Infinity)))
        else None
      case Acoth =>
        if arg == Infinity then Some(Zero)
        else if arg == NegInfinity then Some(Zero)
        else if arg == Zero then Some(HalfPiI)
        else if arg == One then Some(Infinity)
        else if arg == NegOne then Some(NegInfinity)
        else None
  }

  /** The value for a complex-infinity argument. */
  function ComplexInfinityValue(k: Kind): Expr {
    match k
    case Asinh => ComplexInfinity
    case Acosh => Infinity
    case Acoth => Zero
    case _ => NaN
  }

  /** The hyperbolic/circular bridge for an argument c*I. */
  function Bridge(k: Kind, c: Expr): Expr {
    match k
    case Sinh => ImagMul(Trig(Sin, c))
    case Cosh => Trig(Cos, c)
    case Tanh =>
      if CoeffIsNeg(c) then ImagMul(Neg(Trig(Tan, Negate(c)))) else ImagMul(Trig(Tan, c))
    case Coth =>
      if CoeffIsNeg(c) then ImagMul(Trig(Cot, Negate(c))) else ImagMul(Neg(Trig(Cot, c)))
    case Asinh => ImagMul(Trig(Asin, c))
    case Acosh =>
      if CoeffIsNeg(c) then ImagMul(Trig(Acos, c)) else ImagMul(Trig(Acos, Negate(c)))
    case Atanh => ImagMul(Trig(Atan, c))
    case Acoth => ImagMul(Neg(Trig(Acot, c)))
  }

  /**
   * A direct function applied to a node of one of the four inverses: its own
   * inverse cancels, the other twelve pairs are fixed algebraic formulas.
   */
  function CrossIdentity(k: Kind, inner: Kind, x: Expr): Option<Expr> {
    match k
    case Sinh => (
      match inner
      case Asinh => Some(x)
      case Acosh => Some(Mul(Sqrt(Sub(x, One)), Sqrt(Add(x, One))))
      case Atanh => Some(Div(x, Sqrt(Sub(One, Pow(x, Num(2.0))))))
      case Acoth => Some(Div(One, Mul(Sqrt(Sub(x, One)), Sqrt(Add(x, One)))))
      case _ => None)
    case Cosh => (
      match inner
      case Asinh => Some(Sqrt(Add(One, Pow(x, Num(2.0)))))
      case Acosh => Some(x)
      case Atanh => Some(Div(One, Sqrt(Sub(One, Pow(x, Num(2.0))))))
      case Acoth => Some(Div(x, Mul(Sqrt(Sub(x, One)), Sqrt(Add(x, One)))))
      case _ => None)
    case Tanh => (
      match inner
      case Asinh => Some(Div(x, Sqrt(Add(One, Pow(x, Num(2.0))))))
      case Acosh => Some(Div(Mul(Sqrt(Sub(x, One)), Sqrt(Add(x, One))), x))
      case Atanh => Some(x)
      case Acoth => Some(Div(One, x))
      case _ => None)
    case Coth => (
      match inner
      case Asinh => Some(Div(Sqrt(Add(One, Pow(x, Num(2.0)))), x))
      case Acosh => Some(Div(x, Mul(Sqrt(Sub(x, One)), Sqrt(Add(x, One)))))
      case Atanh => Some(Div(One, x))
      case Acoth => Some(x)
      case _ => None)
    case _ => None
  }

  /** Named keys of acosh's table of algebraic constants: cos(q*pi) for the q in their names. */
  const SqrtTwoHalf: Expr := Div(Sqrt(Num(2.0)), Num(2.0))
  const SqrtThreeHalf: Expr := Div(Sqrt(Num(3.0)), Num(2.0))
  const Cos5PiOver12: Expr := Div(Sub(Sqrt(Num(3.0)), One), Sqrt(Num(8.0)))
  const CosPiOver8: Expr := Div(Sqrt(Add(Num(2.0), Sqrt(Num(2.0)))), Num(2.0))
  const Cos3PiOver8: Expr := Div(Sqrt(Sub(Num(2.0), Sqrt(Num(2.0)))), Num(2.0))
  const CosPiOver12: Expr := Div(Add(One, Sqrt(Num(3.0))), Mul(Num(2.0), Sqrt(Num(2.0))))
  const CosPiOver5: Expr := Div(Add(Sqrt(Num(5.0)), One), Num(4.0))

  /**
   * acosh's table of algebraic constants, looked up by key. SymPy lists
   * 1/sqrt(2) and -1/sqrt(2) as separate keys; SymPy builds them as the
   * same numbers as sqrt(2)/2 and -sqrt(2)/2, with the same values, so they
   * are one entry each here.
   */
  function AcoshConstant(key: Expr): Option<Expr> {
    match key
    case ImagMul(c) =>
      if c == One then Some(Log(ImagMul(Add(One, Sqrt(Num(2.0))))))
      else if c == NegOne then Some(Log(ImagMul(Neg(Add(One, Sqrt(Num(2.0)))))))
      else None
    case Num(r) =>
      if r == 0.5 then Some(PiTimes(1.0 / 3.0))
      else if r == -0.5 then Some(PiTimes(2.0 / 3.0))
      else None
    case Bin(_, _, _) =>
      if key == SqrtTwoHalf then Some(PiTimes(0.25))
      else if key == SqrtThreeHalf then Some(PiTimes(1.0 / 6.0))
      else if key == Cos5PiOver12 then Some(PiTimes(5.0 / 12.0))
      else if key == CosPiOver8 then Some(PiTimes(0.125))
      else if key == Cos3PiOver8 then Some(PiTimes(0.375))
      else if key == CosPiOver12 then Some(PiTimes(1.0 / 12.0))
      else if key == CosPiOver5 then Some(PiTimes(0.2))
      else None
    case Neg(p) =>
      if p == SqrtTwoHalf then Some(PiTimes(0.75))
      else if p == SqrtThreeHalf then Some(PiTimes(5.0 / 6.0))
      else if p == Cos5PiOver12 then Some(PiTimes(7.0 / 12.0))
      else if p == CosPiOver8 then Some(PiTimes(0.875))
      else if p == Cos3PiOver8 then Some(PiTimes(0.625))
      else if p == CosPiOver12 then Some(PiTimes(11.0 / 12.0))
      else if p == CosPiOver5 then Some(PiTimes(0.8))
      else None
    case _ => None
  }

  /**
   * Every key of the table is a number, so SymPy's `is_number` guard in
   * front of the lookup never rejects a key.
   */
  lemma AcoshKeysAreNumbers(key: Expr)
    requires AcoshConstant(key).Some?
    ensures IsConstant(key)
  {
    if key.Bin? {
      SurdKeysAreNumbers(key);
    } else if key.Neg? {
      SurdKeysAreNumbers(key.e);
    }
  }

  /** The seven surds of the table are constants. */
  lemma SurdKeysAreNumbers(p: Expr)
    requires p == SqrtTwoHalf || p == SqrtThreeHalf || p == Cos5PiOver12 || p == CosPiOver8
          || p == Cos3PiOver8 || p == CosPiOver12 || p == CosPiOver5
    ensures IsConstant(p)
  {
    SurdsAreConstants();
  }

  /** The seven surds contain no symbol, built up one level at a time. */
  lemma SurdsAreConstants()
    ensures IsConstant(SqrtTwoHalf) && IsConstant(SqrtThreeHalf) && IsConstant(Cos5PiOver12)
    ensures IsConstant(CosPiOver8) && IsConstant(Cos3PiOver8) && IsConstant(CosPiOver12)
    ensures IsConstant(CosPiOver5)
  {
    var two, three, five, eight := Num(2.0), Num(3.0), Num(5.0), Num(8.0);
    assert IsConstant(two) && IsConstant(three) && IsConstant(One);
    var s2, s3 := Sqrt(two), Sqrt(three);
    assert IsConstant(s2) && IsConstant(s3) && IsConstant(Sqrt(eight)) && IsConstant(Sqrt(five));
    assert IsConstant(Sub(s3, One)) && IsConstant(Add(two, s2)) && IsConstant(Sub(two, s2));
    assert IsConstant(Add(One, s3)) && IsConstant(Mul(two, s2)) && IsConstant(Add(Sqrt(five), One));
    assert IsConstant(Sqrt(Add(two, s2))) && IsConstant(Sqrt(Sub(two, s2)));
  }

  /** SymPy's `is_real` on a key of AcoshConstant: every key but the two multiples of I. */
  predicate IsRealKey(e: Expr) {
    !e.ImagMul?
  }

  /**
   * The result of the parity rule, given the function's value at `-arg`: -f(-arg)
   * for every function but cosh, acosh included, as SymPy writes it.
   */
  function Parity(k: Kind, atNegated: Expr): Expr {
    if IsOdd(k) then Negate(atNegated) else atNegated
  }

  /**
   * The outcome of one class's chain of tests: a final answer (a replacement
   * or None), or the parity rule, which needs the function's value at the
   * negated argument.
   */
  datatype Step = Done(result: Option<Expr>) | Recurse(negated: Expr)

  /** acosh's chain of tests (its `is_Number` branch falls through to the constant table). */
  function AcoshRule(arg: Expr): (s: Step)
    ensures s.Recurse? ==> CoeffIsNeg(arg) && s.negated == Negate(arg)
  {
    if IsNumber(arg) && NumberSentinel(Acosh, arg).Some? then Done(NumberSentinel(Acosh, arg))
    else if AcoshConstant(arg).Some? then
      var value := AcoshConstant(arg).value;
      if IsRealKey(arg) then Done(Some(ImagMul(value))) else Done(Some(value))
    else if arg == ComplexInfinity then Done(Some(ComplexInfinityValue(Acosh)))
    else if arg.ImagMul? then Done(Some(Bridge(Acosh, arg.c)))
    else if CoeffIsNeg(arg) then Recurse(Negate(arg))
    else Done(None)
  }

  /** The chain of tests of class k applied to arg. */
  function Rule(k: Kind, arg: Expr): (s: Step)
    ensures s.Recurse? ==> CoeffIsNeg(arg) && s.negated == Negate(arg)
  {
    if k == Acosh then AcoshRule(arg)
    else if IsNumber(arg) then
      if NumberSentinel(k, arg).Some? then Done(NumberSentinel(k, arg))
      else if IsNegativeNumber(arg) then Recurse(Negate(arg))
      else Done(None)
    else if arg == ComplexInfinity then Done(Some(ComplexInfinityValue(k)))
    else if arg.ImagMul? then Done(Some(Bridge(k, arg.c)))
    else if CoeffIsNeg(arg) then Recurse(Negate(arg))
    else if IsDirect(k) && arg.App? then Done(CrossIdentity(k, arg.kind, arg.arg))
    else Done(None)
  }

  /** `eval` of the class k applied to arg: None means the node stays as built. */
  function Eval(k: Kind, arg: Expr): Option<Expr>
    decreases Size(arg), NegRank(arg), 0
  {
    match Rule(k, arg)
    case Done(r) => r
    case Recurse(negated) => Some(Parity(k, Build(k, negated)))
  }

  /** The node SymPy builds for f(arg): the replacement if `eval` gives one, else the node itself. */
  function Build(k: Kind, arg: Expr): Expr
    decreases Size(arg), NegRank(arg), 1
  {
    match Eval(k, arg)
    case Some(v) => v
    case None => App(k, arg)
  }

  /**
   * acosh's `eval` with its parity rule replaced by the reflection of the
   * principal branch acosh(z) = log(z + sqrt(z + 1)*sqrt(z - 1)) that its own
   * table follows: acosh(-x) = pi*I - acosh(x) for a real 0 < x <= 1 and
   * acosh(-x) = acosh(x) + pi*I for a real x > 1. A negated argument that is
   * not a literal has no such rule and stays unevaluated.
   */
  function AcoshCorrected(arg: Expr): Option<Expr> {
    match AcoshRule(arg)
    case Done(r) => r
    case Recurse(negated) =>
      if !negated.Num? then None
      else if negated.r <= 1.0 then Some(Sub(ImagMul(Pi), Build(Acosh, negated)))
      else Some(Add(Build(Acosh, negated), ImagMul(Pi)))
  }
}
