/** What the canonicalisation rules promise, stated over Eval and Build. */
module HyperbolicEvalLemmas {
  import opened Wrappers
  import opened HyperbolicExpr
  import opened HyperbolicEval

  /** NaN is absorbing for all eight functions. */
  lemma NaNIsAbsorbing(k: Kind)
    ensures Eval(k, NaN) == Some(NaN)
  {
  }

  /** A number with a row in the sentinel table evaluates to that row, before any other rule. */
  lemma SentinelStep(k: Kind, a: Expr)
    requires IsNumber(a) && NumberSentinel(k, a).Some?
    ensures Build(k, a) == NumberSentinel(k, a).value
  {
    if k == Acosh {
      assert AcoshRule(a) == Done(NumberSentinel(Acosh, a));
    } else {
      assert Rule(k, a) == Done(NumberSentinel(k, a));
    }
  }

  /** sinh and cosh at the real sentinels. */
  lemma SinhCoshSentinels()
    ensures Build(Sinh, Infinity) == Infinity && Build(Sinh, NegInfinity) == NegInfinity
    ensures Build(Sinh, Zero) == Zero
    ensures Build(Cosh, Infinity) == Infinity && Build(Cosh, NegInfinity) == Infinity
    ensures Build(Cosh, Zero) == One
  {
    SentinelStep(Sinh, Infinity);
    SentinelStep(Sinh, NegInfinity);
    SentinelStep(Sinh, Zero);
    SentinelStep(Cosh, Infinity);
    SentinelStep(Cosh, NegInfinity);
    SentinelStep(Cosh, Zero);
  }

  /** tanh and coth at the real sentinels; coth(0) is 0 as SymPy writes it. */
  lemma TanhCothSentinels()
    ensures Build(Tanh, Infinity) == One && Build(Tanh, NegInfinity) == NegOne
    ensures Build(Coth, Infinity) == One && Build(Coth, NegInfinity) == NegOne
    ensures Build(Tanh, Zero) == Zero && Build(Coth, Zero) == Zero
  {
    SentinelStep(Tanh, Infinity);
    SentinelStep(Tanh, NegInfinity);
    SentinelStep(Tanh, Zero);
    SentinelStep(Coth, Infinity);
    SentinelStep(Coth, NegInfinity);
    SentinelStep(Coth, Zero);
  }

  /** asinh and acosh at the real sentinels. */
  lemma AsinhAcoshSentinels()
    ensures Build(Asinh, One) == Log(Add(Sqrt(Num(2.0)), One))
    ensures Build(Asinh, NegOne) == Log(Sub(Sqrt(Num(2.0)), One))
    ensures Build(Acosh, Zero) == HalfPiI && Build(Acosh, One) == Zero
    ensures Build(Acosh, NegOne) == ImagMul(Pi)
  {
    SentinelStep(Asinh, One);
    SentinelStep(Asinh, NegOne);
    SentinelStep(Acosh, Zero);
    SentinelStep(Acosh, One);
    SentinelStep(Acosh, NegOne);
  }

  /** atanh and acoth at the real sentinels. */
  lemma AtanhAcothSentinels()
    ensures Build(Atanh, One) == Infinity && Build(Atanh, NegOne) == NegInfinity
    ensures Build(Acoth, Infinity) == Zero && Build(Acoth, NegInfinity) == Zero
    ensures Build(Acoth, Zero) == HalfPiI
    ensures Build(Acoth, One) == Infinity && Build(Acoth, NegOne) == NegInfinity
  {
    SentinelStep(Atanh, One);
    SentinelStep(Atanh, NegOne);
    SentinelStep(Acoth, Infinity);
    SentinelStep(Acoth, NegInfinity);
    SentinelStep(Acoth, Zero);
    SentinelStep(Acoth, One);
    SentinelStep(Acoth, NegOne);
  }

  /** A positive literal that is not a sentinel is left unchanged by the four direct functions. */
  lemma PositiveLiteralUnchanged(k: Kind, r: real)
    requires IsDirect(k) && r > 0.0
    ensures Eval(k, Num(r)) == None
  {
  }

  /** Complex infinity: NaN for five functions, and three exceptions. */
  lemma ComplexInfinityValues(k: Kind)
    ensures Build(k, ComplexInfinity) ==
      if k == Asinh then ComplexInfinity
      else if k == Acosh then Infinity
      else if k == Acoth then Zero
      else NaN
  {
  }

  /** A syntactically negated argument goes to the parity rule. */
  lemma RuleOnNegated(k: Kind, x: Expr)
    requires k != Acosh && Positive(x) && !x.Num? && x != Infinity
    ensures Rule(k, Neg(x)) == Recurse(x)
  {
  }

  /** A negative literal that is not a sentinel row goes to the parity rule. */
  lemma RuleOnNegativeLiteral(k: Kind, r: real)
    requires k != Acosh && r > 0.0 && NumberSentinel(k, Num(-r)).None?
    ensures Rule(k, Num(-r)) == Recurse(Num(r))
  {
  }

  /** The negation of a positive x that is not a sentinel row goes to the parity rule. */
  lemma RuleOnNegation(k: Kind, x: Expr)
    requires k != Acosh && Positive(x)
    requires NumberSentinel(k, Negate(x)).None?
    ensures Rule(k, Negate(x)) == Recurse(x)
  {
    if x.Num? {
      RuleOnNegativeLiteral(k, x.r);
    } else if x == Infinity {
      // every function has a sentinel row for -oo
      assert false;
    } else {
      RuleOnNegated(k, x);
    }
  }

  /**
   * f(-x) for a positive x that is not a sentinel row: the parity rule applies
   * to f(x), for every function but acosh.
   */
  lemma EvalOfNegated(k: Kind, x: Expr)
    requires k != Acosh && Positive(x)
    requires NumberSentinel(k, Negate(x)).None?
    ensures Eval(k, Negate(x)) == Some(Parity(k, Build(k, x)))
  {
    RuleOnNegation(k, x);
  }

  /** The odd functions at -oo: their sentinel rows agree with f(-oo) = -f(oo). */
  lemma OddParityAtInfinity(k: Kind)
    requires IsOdd(k) && k != Acosh
    ensures Build(k, NegInfinity) == Negate(Build(k, Infinity))
  {
    SentinelStep(k, Infinity);
    SentinelStep(k, NegInfinity);
    var p, m := NumberSentinel(k, Infinity).value, NumberSentinel(k, NegInfinity).value;
    match k
    case Sinh => assert p == Infinity && m == NegInfinity;
    case Tanh => assert p == One && m == NegOne;
    case Coth => assert p == One && m == NegOne;
    case Asinh => assert p == Infinity && m == NegInfinity;
    case Atanh => assert m == ImagMul(Trig(Atan, Infinity));
    case Acoth => assert p == Zero && m == Zero;
  }

  /** atanh and acoth at -1: their sentinel rows agree with f(-1) = -f(1). */
  lemma OddParityAtOne(k: Kind)
    requires k == Atanh || k == Acoth
    ensures Build(k, NegOne) == Negate(Build(k, One))
  {
    SentinelStep(k, One);
    SentinelStep(k, NegOne);
  }

  /**
   * Parity of the odd functions: f(-x) is -f(x) for every positive x, whether
   * -x is a negative literal, -oo or a syntactically negated expression. The
   * one exception is asinh(-1), whose table value is log(sqrt(2) - 1).
   */
  lemma OddParity(k: Kind, x: Expr)
    requires IsOdd(k) && k != Acosh && Positive(x)
    requires k == Asinh ==> x != One
    ensures Build(k, Negate(x)) == Negate(Build(k, x))
  {
    if NumberSentinel(k, Negate(x)).None? {
      EvalOfNegated(k, x);
    } else if x == Infinity {
      OddParityAtInfinity(k);
    } else {
      assert x == One && (k == Atanh || k == Acoth);
      OddParityAtOne(k);
    }
  }

  /** cosh is even: cosh(-x) is cosh(x) for every positive x. */
  lemma CoshIsEven(x: Expr)
    requires Positive(x)
    ensures Build(Cosh, Negate(x)) == Build(Cosh, x)
  {
    if x != Infinity {
      EvalOfNegated(Cosh, x);
    }
  }

  /** One step of acosh's parity rule on an argument no earlier row catches: -acosh(-arg). */
  lemma AcoshParityStep(nx: Expr)
    requires !(IsNumber(nx) && NumberSentinel(Acosh, nx).Some?)
    requires AcoshConstant(nx).None? && nx != ComplexInfinity && !nx.ImagMul? && CoeffIsNeg(nx)
    ensures Build(Acosh, nx) == Negate(Build(Acosh, Negate(nx)))
  {
    assert AcoshRule(nx) == Recurse(Negate(nx));
  }

  /**
   * acosh of a negated argument that no sentinel or table row catches is
   * -acosh of the argument, as if acosh were odd.
   */
  lemma AcoshOfNegation(x: Expr)
    requires Positive(x) && x != One && x != Infinity
    requires AcoshConstant(Negate(x)).None?
    ensures Build(Acosh, Negate(x)) == Negate(Build(Acosh, x))
  {
    if x.Num? {
      assert Negate(x) == Num(-x.r) && -x.r != -1.0;
      AcoshParityStep(Num(-x.r));
    } else {
      assert Negate(x) == Neg(x);
      AcoshParityStep(Neg(x));
    }
  }

  /** acosh(-2) is built as -acosh(2); the corrected rule gives acosh(2) + pi*I. */
  lemma AcoshAtMinusTwo()
    ensures Build(Acosh, Num(-2.0)) == Neg(App(Acosh, Num(2.0)))
    ensures AcoshCorrected(Num(-2.0)) == Some(Add(App(Acosh, Num(2.0)), ImagMul(Pi)))
  {
    assert AcoshRule(Num(2.0)) == Done(None);
    AcoshOfNegation(Num(2.0));
    AcoshBelowMinusOne(2.0);
  }

  /** Away from the parity rule, the corrected acosh and SymPy's agree. */
  lemma AcoshCorrectedAgreesElsewhere(arg: Expr)
    requires !CoeffIsNeg(arg)
    ensures AcoshCorrected(arg) == Eval(Acosh, arg)
  {
  }

  /** The corrected rule on (-1, 0): acosh(-x) = pi*I - acosh(x) for every literal the table does not list. */
  lemma AcoshReflection(r: real)
    requires 0.0 < r < 1.0 && AcoshConstant(Num(-r)).None?
    ensures AcoshCorrected(Num(-r)) == Some(Sub(ImagMul(Pi), Build(Acosh, Num(r))))
  {
    assert AcoshRule(Num(-r)) == Recurse(Num(r));
  }

  /** The corrected rule below -1: acosh(-x) = acosh(x) + pi*I. */
  lemma AcoshBelowMinusOne(r: real)
    requires r > 1.0
    ensures AcoshCorrected(Num(-r)) == Some(Add(Build(Acosh, Num(r)), ImagMul(Pi)))
  {
    assert AcoshRule(Num(-r)) == Recurse(Num(r));
  }

  /** The corrected rule leaves acosh of a negated non-literal unevaluated. */
  lemma AcoshCorrectedLeavesSymbolic(x: Expr)
    requires Positive(x) && !x.Num? && x != Infinity && AcoshConstant(Neg(x)).None?
    ensures AcoshCorrected(Neg(x)) == None
  {
    assert Negate(x) == Neg(x);
    assert AcoshRule(Neg(x)) == Recurse(x);
  }

  /**
   * The coefficient q of an expression that denotes q*pi*I, read off the forms
   * the acosh rules produce (None for any other form).
   */
  function PiICoefficient(e: Expr): Option<real> {
    if e.Num? then (if e.r == 0.0 then Some(0.0) else None)
    else if e.ImagMul? then PiCoefficient(e.c)
    else if e.Bin? && e.op == Minus then
      var (p, q) := (PiICoefficient(e.a), PiICoefficient(e.b));
      if p.Some? && q.Some? then Some(p.value - q.value) else None
    else None
  }

  /** The coefficient q of an expression that denotes q*pi (None for any other form). */
  function PiCoefficient(e: Expr): Option<real> {
    if e.Pi? then Some(1.0)
    else if e.Bin? && e.op == Times && e.a.Num? && e.b.Pi? then Some(e.a.r)
    else if e.Neg? then
      var p := PiCoefficient(e.e);
      if p.Some? then Some(-p.value) else None
    else None
  }

  /** A key of acosh's constant table that is not a sentinel gives the table's value, times I when real. */
  lemma AcoshConstantStep(a: Expr)
    requires AcoshConstant(a).Some? && a != Num(1.0) && a != Num(-1.0)
    ensures Build(Acosh, a) ==
      if IsRealKey(a) then ImagMul(AcoshConstant(a).value) else AcoshConstant(a).value
  {
  }

  /**
   * Every real entry pair a, -a of acosh's constant table obeys
   * acosh(-a) = pi*I - acosh(a): the value for -a is pi minus the value for a.
   * Every such key lies in (0, 1), where AcoshCorrected applies this rule.
   */
  lemma AcoshTableObeysReflection(a: Expr)
    requires AcoshConstant(a).Some? && IsRealKey(a) && !CoeffIsNeg(a)
    ensures AcoshConstant(Negate(a)).Some?
    ensures PiCoefficient(AcoshConstant(a).value).Some?
    ensures PiCoefficient(AcoshConstant(Negate(a)).value).Some?
    ensures PiCoefficient(AcoshConstant(Negate(a)).value).value
         == 1.0 - PiCoefficient(AcoshConstant(a).value).value
  {
    if a.Num? {
      assert a == Num(0.5);
    } else {
      SurdReflection(a);
    }
  }

  /** The surd half of AcoshTableObeysReflection: the keys p and -p. */
  lemma SurdReflection(p: Expr)
    requires p.Bin? && AcoshConstant(p).Some?
    ensures AcoshConstant(Neg(p)).Some?
    ensures PiCoefficient(AcoshConstant(p).value).Some?
    ensures PiCoefficient(AcoshConstant(Neg(p)).value).Some?
    ensures PiCoefficient(AcoshConstant(Neg(p)).value).value
         == 1.0 - PiCoefficient(AcoshConstant(p).value).value
  {
    if p == SqrtTwoHalf {
    } else if p == SqrtThreeHalf {
    } else if p == Cos5PiOver12 {
    } else if p == CosPiOver8 {
    } else if p == Cos3PiOver8 {
    } else if p == CosPiOver12 {
    } else {
      assert p == CosPiOver5;
    }
  }

  /** The sentinel pair acosh(1) = 0, acosh(-1) = pi*I obeys the same rule. */
  lemma AcoshSentinelsObeyReflection()
    ensures PiICoefficient(Build(Acosh, NegOne)) == PiICoefficient(Sub(ImagMul(Pi), Build(Acosh, One)))
  {
    AsinhAcoshSentinels();
  }

  /**
   * SymPy's rule acosh(-a) = -acosh(a) contradicts its own sentinels:
   * acosh(1) = 0 but acosh(-1) = pi*I.
   */
  lemma AcoshAsWrittenContradictsSentinels()
    ensures PiICoefficient(Negate(Build(Acosh, One))) == Some(0.0)
    ensures PiICoefficient(Build(Acosh, NegOne)) == Some(1.0)
  {
    AsinhAcoshSentinels();
  }

  /**
   * SymPy's rule acosh(-a) = -acosh(a) contradicts its own constant
   * table: acosh(1/2) = pi*I/3, so the rule would give acosh(-1/2) = -pi*I/3,
   * but the table says 2*pi*I/3, which is what pi*I - acosh(1/2) gives.
   */
  lemma AcoshAsWrittenContradictsTable()
    ensures PiICoefficient(Negate(Build(Acosh, Num(0.5)))) == Some(-1.0 / 3.0)
    ensures PiICoefficient(Build(Acosh, Num(-0.5))) == Some(2.0 / 3.0)
    ensures PiICoefficient(Sub(ImagMul(Pi), Build(Acosh, Num(0.5)))) == Some(2.0 / 3.0)
  {
    AcoshAtHalves();
  }

  /** acosh(1/2) = pi*I/3 and acosh(-1/2) = 2*pi*I/3, from the table. */
  lemma AcoshAtHalves()
    ensures Build(Acosh, Num(0.5)) == ImagMul(PiTimes(1.0 / 3.0))
    ensures Build(Acosh, Num(-0.5)) == ImagMul(PiTimes(2.0 / 3.0))
  {
    AcoshConstantStep(Num(0.5));
    AcoshConstantStep(Num(-0.5));
  }

  /** Every function sends c*I to its bridge formula, unless c*I is one of acosh's table keys. */
  lemma BridgeStep(k: Kind, c: Expr)
    requires k == Acosh ==> AcoshConstant(ImagMul(c)).None?
    ensures Build(k, ImagMul(c)) == Bridge(k, c)
  {
    assert Rule(k, ImagMul(c)) == Done(Some(Bridge(k, c)));
  }

  /** tanh(-c*I) = -tanh(c*I): the sign branch of tanh's bridge. */
  lemma TanhBridgeIsOdd(c: Expr)
    requires Positive(c)
    ensures Build(Tanh, ImagMul(Negate(c))) == Negate(Build(Tanh, ImagMul(c)))
  {
    NegatePositive(c);
    BridgeStep(Tanh, Negate(c));
    assert Build(Tanh, ImagMul(c)) == ImagMul(Trig(Tan, c)) by {
      BridgeStep(Tanh, c);
    }
  }

  /** coth(-c*I) = -coth(c*I): the sign branch of coth's bridge. */
  lemma CothBridgeIsOdd(c: Expr)
    requires Positive(c)
    ensures Build(Coth, ImagMul(Negate(c))) == Negate(Build(Coth, ImagMul(c)))
  {
    NegatePositive(c);
    BridgeStep(Coth, Negate(c));
    assert Build(Coth, ImagMul(c)) == ImagMul(Neg(Trig(Cot, c))) by {
      BridgeStep(Coth, c);
    }
  }

  /** The sign branch of the tanh and coth bridges keeps them odd: f(-c*I) = -f(c*I). */
  lemma BridgeKeepsTanhCothOdd(k: Kind, c: Expr)
    requires k == Tanh || k == Coth
    requires Positive(c)
    ensures Build(k, ImagMul(Negate(c))) == Negate(Build(k, ImagMul(c)))
  {
    if k == Tanh {
      TanhBridgeIsOdd(c);
    } else {
      CothBridgeIsOdd(c);
    }
  }

  /** The only imaginary keys of acosh's constant table are I and -I. */
  lemma AcoshImaginaryKeys(c: Expr)
    requires c != One && c != NegOne
    ensures AcoshConstant(ImagMul(c)).None?
  {
  }

  /** As written, acosh's bridge gives c*I and -c*I the same value, I*acos(-c). */
  lemma AcoshBridgeIgnoresSign(c: Expr)
    requires Positive(c) && c != One
    ensures Build(Acosh, ImagMul(Negate(c))) == Build(Acosh, ImagMul(c))
    ensures Build(Acosh, ImagMul(c)) == ImagMul(Trig(Acos, Negate(c)))
  {
    NegatePositive(c);
    AcoshImaginaryKeys(c);
    BridgeStep(Acosh, c);
    var n := Negate(c);
    assert n != NegOne by {
      assert Negate(NegOne) == One;
    }
    AcoshImaginaryKeys(n);
    BridgeStep(Acosh, n);
  }

  /** The bridge comes before the parity rule: every c*I is handled by the bridge. */
  lemma BridgeAppliesToEveryImaginaryMultiple(k: Kind, c: Expr)
    requires AcoshConstant(ImagMul(c)).None?
    ensures Eval(k, ImagMul(c)) == Some(Bridge(k, c))
  {
  }

  /** A direct function applied to an inverse function always has a cross-identity. */
  lemma CrossTableCoversDirectOfInverse(k: Kind, g: Kind, x: Expr)
    requires IsDirect(k) && !IsDirect(g)
    ensures Eval(k, App(g, x)).Some?
  {
  }

  /** Nothing rewrites f(g(x)) when g is a direct function. */
  lemma DirectInsideIsUnchanged(k: Kind, g: Kind, x: Expr)
    requires IsDirect(g)
    ensures Eval(k, App(g, x)) == None
  {
  }

  /** The inverse functions have no cross-identity table: they leave f(g(x)) alone. */
  lemma InverseOutsideIsUnchanged(k: Kind, g: Kind, x: Expr)
    requires !IsDirect(k)
    ensures Eval(k, App(g, x)) == None
  {
  }
}
