/**
 * The first derivatives (`fdiff`) and the inverse classes (`inverse`) of the
 * eight hyperbolic functions. A derivative is the expression SymPy builds,
 * so a hyperbolic node inside it goes through `eval` (Build).
 */
module HyperbolicCalculus {
  import opened Wrappers
  import opened HyperbolicExpr
  import opened HyperbolicEval
  import HyperbolicEvalLemmas

  /** What SymPy raises for an argument index other than 1. */
  datatype ArgumentIndexError = ArgumentIndexError(kind: Kind, argindex: int)

  /** `fdiff(argindex)` of k(x): the derivative with respect to the one argument. */
  function FDiff(k: Kind, x: Expr, argindex: int): (r: Result<Expr, ArgumentIndexError>)
    ensures r.Failure? <==> argindex != 1
    ensures r.Failure? ==> r.error == ArgumentIndexError(k, argindex)
  {
    if argindex != 1 then Failure(ArgumentIndexError(k, argindex))
    else
      var square := Pow(x, Num(2.0));
      match k
      case Sinh => Success(Build(Cosh, x))
      case Cosh => Success(Build(Sinh, x))
      case Tanh => Success(Sub(One, Pow(Build(Tanh, x), Num(2.0))))
      case Coth => Success(Div(NegOne, Pow(Build(Sinh, x), Num(2.0))))
      case Asinh => Success(Div(One, Sqrt(Add(square, One))))
      case Acosh => Success(Div(One, Sqrt(Sub(square, One))))
      case Atanh => Success(Div(One, Sub(One, square)))
      case Acoth => Success(Div(One, Sub(One, square)))
  }

  /** `inverse()`: the class of the inverse function; cosh defines none. */
  function Inverse(k: Kind): (r: Option<Kind>)
    ensures r.Some? ==> IsDirect(k) != IsDirect(r.value)
    ensures r.None? <==> k == Cosh
  {
    match k
    case Sinh => Some(Asinh)
    case Cosh => None
    case Tanh => Some(Atanh)
    case Coth => Some(Acoth)
    case Asinh => Some(Sinh)
    case Acosh => Some(Cosh)
    case Atanh => Some(Tanh)
    case Acoth => Some(Coth)
  }

  /** Differentiating sinh twice comes back to sinh, when neither node is rewritten. */
  lemma SinhCoshDerivativeCycle(x: Expr)
    requires Eval(Sinh, x) == None && Eval(Cosh, x) == None
    ensures FDiff(Sinh, x, 1) == Success(App(Cosh, x))
    ensures FDiff(Cosh, x, 1) == Success(App(Sinh, x))
  {
  }

  /** sinh is odd, so its derivative takes the same value at x and -x. */
  lemma SinhDerivativeIsEven(x: Expr)
    requires Positive(x)
    ensures FDiff(Sinh, Negate(x), 1) == FDiff(Sinh, x, 1)
  {
    HyperbolicEvalLemmas.CoshIsEven(x);
  }

  /** cosh is even, so its derivative changes sign with x. */
  lemma CoshDerivativeIsOdd(x: Expr)
    requires Positive(x)
    ensures FDiff(Cosh, Negate(x), 1) == Success(Negate(FDiff(Cosh, x, 1).value))
  {
    HyperbolicEvalLemmas.OddParity(Sinh, x);
  }

  /** atanh and acoth have the same derivative 1/(1 - x^2). */
  lemma AtanhAcothSameDerivative(x: Expr, argindex: int)
    ensures FDiff(Atanh, x, argindex).Success? == FDiff(Acoth, x, argindex).Success?
    ensures argindex == 1 ==> FDiff(Atanh, x, argindex).value == FDiff(Acoth, x, argindex).value
    ensures argindex == 1 ==> FDiff(Atanh, x, 1) == Success(Div(One, Sub(One, Pow(x, Num(2.0)))))
  {
  }

  /** `inverse` undoes itself, except for acosh, whose inverse cosh has none. */
  lemma InverseIsInvolution(k: Kind)
    requires k != Acosh
    ensures Inverse(k).Some? ==> Inverse(Inverse(k).value) == Some(k)
  {
  }

  /** A direct function applied to its inverse's node returns the argument. */
  lemma InverseCancels(g: Kind, x: Expr)
    requires Inverse(g).Some? && IsDirect(Inverse(g).value)
    ensures Build(Inverse(g).value, App(g, x)) == x
  {
  }

  /** f(f^-1(x)) == x whenever SymPy leaves f^-1(x) as built. */
  lemma InverseRoundTrip(g: Kind, x: Expr)
    requires Inverse(g).Some? && IsDirect(Inverse(g).value)
    requires Eval(g, x) == None
    ensures Build(Inverse(g).value, Build(g, x)) == x
  {
    InverseCancels(g, x);
  }
}
