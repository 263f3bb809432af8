/**
 * The Maclaurin coefficients of the eight hyperbolic functions, term by term,
 * as `taylor_term` computes them: a zero rule by index and parity, special
 * values at index 0, and either a closed form or a recurrence from the term
 * two places back.
 */
module HyperbolicTaylor {
  import opened HyperbolicExpr

  /** An exact coefficient re + im*I + piI*pi*I. */
  datatype Coef = Coef(re: real, im: real, piI: real)

  const NoCoef: Coef := Coef(0.0, 0.0, 0.0)

  function Real(q: real): Coef { Coef(q, 0.0, 0.0) }
  function Imag(q: real): Coef { Coef(0.0, q, 0.0) }

  function Scale(c: Coef, q: real): Coef {
    Coef(c.re * q, c.im * q, c.piI * q)
  }

  /**
   * One series term c*x^pow of the expansion variable x, or Undefined: the
   * complex infinity or NaN SymPy produces when the recurrence divides by
   * zero (or is handed such a term).
   */
  datatype Term = Mono(c: Coef, pow: int) | Undefined

  /** SymPy's zero. */
  const ZeroTerm: Term := Mono(NoCoef, 0)

  /** c*x^pow, with a zero coefficient collapsing to SymPy's zero. */
  function MkMono(c: Coef, pow: int): Term {
    if c == NoCoef then ZeroTerm else Mono(c, pow)
  }

  /** n!, as the exact real SymPy's integer becomes in a coefficient. */
  function Factorial(n: nat): (r: real)
    ensures r >= 1.0
  {
    if n == 0 then 1.0 else (n as real) * Factorial(n - 1)
  }

  /** The rising factorial x (x+1) ... (x+k-1). */
  function RisingFactorial(x: real, k: nat): (r: real)
    ensures x > 0.0 ==> r > 0.0
  {
    if k == 0 then 1.0 else RisingFactorial(x, k - 1) * (x + (k - 1) as real)
  }

  function Pow2(n: nat): (r: nat)
    ensures r >= 1
  {
    if n == 0 then 1 else 2 * Pow2(n - 1)
  }

  /** (-1)^k. */
  function Sign(k: nat): real {
    if k % 2 == 0 then 1.0 else -1.0
  }

  /** p * x^2 / d: the sinh and cosh recurrence step, undefined when d is 0. */
  function DivideRecur(p: Term, d: int): Term {
    match p
    case Undefined => Undefined
    case Mono(c, e) => if d == 0 then Undefined else MkMono(Scale(c, 1.0 / d as real), e + 2)
  }

  /** p * q * x^2: the asinh and acosh recurrence step. */
  function Recur(p: Term, q: real): Term {
    match p
    case Undefined => Undefined
    case Mono(c, e) => MkMono(Scale(c, q), e + 2)
  }

  /** The term two places back, as `previous_terms[-2]` reads it. */
  function TwoBack(prev: seq<Term>): Term
    requires |prev| >= 2
  {
    prev[|prev| - 2]
  }

  /** The coefficient (1/2)_k / k! / (2k+1) of the closed-form terms of asinh and acosh. */
  function HalfBinomial(k: nat): real {
    RisingFactorial(0.5, k) / Factorial(k) / ((2 * k + 1) as real)
  }

  /** (n-2)^2 / (n(n-1)), the factor of the asinh and acosh recurrences. */
  function RecurrenceRatio(n: int): real
    requires n > 2
  {
    ((n - 2) as real) * ((n - 2) as real) / ((n as real) * ((n - 1) as real))
  }

  /**
   * `taylor_term(n, x, *previous_terms)` of function k. The Bernoulli numbers
   * the tangent and cotangent coefficients use are a parameter.
   */
  function TaylorTerm(k: Kind, n: int, prev: seq<Term>, bernoulli: nat -> real): Term {
    match k
    case Sinh =>
      if n < 0 || n % 2 == 0 then ZeroTerm
      else if |prev| > 2 then DivideRecur(TwoBack(prev), n * (n - 1))
      else MkMono(Real(1.0 / Factorial(n)), n)
    case Cosh =>
      if n < 0 || n % 2 == 1 then ZeroTerm
      else if |prev| > 2 then DivideRecur(TwoBack(prev), n * (n - 1))
      else MkMono(Real(1.0 / Factorial(n)), n)
    case Tanh =>
      if n < 0 || n % 2 == 0 then ZeroTerm
      else
        var a := Pow2(n + 1) as real;
        MkMono(Real(a * (a - 1.0) * bernoulli(n + 1) / Factorial(n + 1)), n)
    case Coth =>
      if n == 0 then Mono(Real(1.0), -1)
      else if n < 0 || n % 2 == 0 then ZeroTerm
      else MkMono(Real((Pow2(n + 1) as real) * bernoulli(n + 1) / Factorial(n + 1)), n)
    case Asinh =>
      if n < 0 || n % 2 == 0 then ZeroTerm
      else if |prev| >= 2 && n > 2 then
        Recur(TwoBack(prev), -RecurrenceRatio(n))
      else MkMono(Real(Sign((n - 1) / 2) * HalfBinomial((n - 1) / 2)), n)
    case Acosh =>
      if n == 0 then Mono(Coef(0.0, 0.0, 0.5), 0)
      else if n < 0 || n % 2 == 0 then ZeroTerm
      else if |prev| >= 2 && n > 2 then
        Recur(TwoBack(prev), RecurrenceRatio(n))
      else MkMono(Imag(-HalfBinomial((n - 1) / 2)), n)
    case Atanh =>
      if n < 0 || n % 2 == 0 then ZeroTerm
      else MkMono(Real(1.0 / (n as real)), n)
    case Acoth =>
      if n == 0 then Mono(Coef(0.0, 0.0, 0.5), 0)
      else if n < 0 || n % 2 == 0 then ZeroTerm
      else MkMono(Real(1.0 / (n as real)), n)
  }

  /** The closed-form term: what `taylor_term` gives with no previous terms. */
  function Closed(k: Kind, n: int, bernoulli: nat -> real): Term {
    TaylorTerm(k, n, [], bernoulli)
  }
}

/** Identities of exact (real and integer) arithmetic the coefficient proofs rely on. */
module ExactArith {
  lemma CastMul(a: int, b: int)
    ensures (a * b) as real == (a as real) * (b as real)
  {
  }

  /** A signed coefficient times the negated factor: (s h1)(-q) = (-s) h when h = h1 q. */
  lemma SignedProduct(s: real, h1: real, q: real, h: real)
    requires h == h1 * q
    ensures (s * h1) * -q == -s * h
    ensures -h1 * q == -h
    ensures 0.0 * -q == 0.0 && 0.0 * q == 0.0
  {
  }

  /** a = x b and b = y c give a = (x y) c. */
  lemma MulChain(a: real, b: real, c: real, x: real, y: real)
    requires a == x * b && b == y * c
    ensures a == (x * y) * c
  {
  }

  lemma ReciprocalMul(f: real, d: real)
    requires f != 0.0 && d != 0.0
    ensures (1.0 / f) * (1.0 / d) == 1.0 / (d * f)
  {
  }

  lemma MulPos(a: real, b: real)
    requires a > 0.0 && b > 0.0
    ensures a * b > 0.0
  {
  }
  lemma DivMulCancel(a: real, b: real, c: real)
    requires b != 0.0 && c != 0.0
    ensures (a * c) / (b * c) == a / b
  {
  }
  lemma DivDiv(a: real, b: real, c: real)
    requires b != 0.0 && c != 0.0
    ensures a / b / c == a / (b * c)
  {
  }
  lemma MulFrac(a: real, b: real, c: real, d: real)
    requires b != 0.0 && d != 0.0
    ensures (a / b) * (c / d) == (a * c) / (b * d)
  {
  }
  lemma Regroup(r: real, t: real, u: real, f: real, m: real)
    ensures (r * t) * t == r * (t * t)
    ensures ((u * f) * m) * t == (f * t) * (m * u)
  {
  }
  /** The algebra behind the asinh and acosh recurrences, with m, t and u standing for 2k+1, 2k-1 and 2k. */
  lemma HalfBinomialCore(r: real, f: real, m: real, t: real, u: real)
    requires f > 0.0 && m > 0.0 && t > 0.0 && u > 0.0
    ensures (r * t) / ((u * f) * m) == (r / f / t) * ((t * t) / (m * u))
  {
    MulPos(u, f);
    MulPos(u * f, m);
    MulPos(f, t);
    MulPos(m, u);
    DivMulCancel(r * t, (u * f) * m, t);
    assert (r * t) * t == r * (t * t);
    assert ((u * f) * m) * t == (f * t) * (m * u);
    MulFrac(r, f * t, t * t, m * u);
    DivDiv(r, f, t);
  }

  /** (1/2)_k / k! / (2k+1) written with (1/2)_k = r (k - 1/2) and k! = k f, over a common denominator. */
  lemma HalfBinomialCommonDenominator(r: real, f: real, kr: real)
    requires f > 0.0 && kr >= 1.0
    ensures (r * (kr - 0.5)) / (kr * f) / (2.0 * kr + 1.0)
         == (r * (2.0 * kr - 1.0)) / (((2.0 * kr) * f) * (2.0 * kr + 1.0))
  {
    var m := 2.0 * kr + 1.0;
    var t := 2.0 * kr - 1.0;
    var u := 2.0 * kr;
    MulPos(u, f);
    assert r * (kr - 0.5) == (r * t) * 0.5;
    assert kr * f == (u * f) * 0.5;
    DivMulCancel(r * t, u * f, 0.5);
    DivDiv(r * t, u * f, m);
  }

  /**
   * The identity behind the asinh and acosh recurrences: with r, f and kr
   * standing for (1/2)_(k-1), (k-1)! and k, the coefficient at k is the one
   * at k-1 times (n-2)^2 / (n(n-1)), n = 2k+1.
   */
  lemma HalfBinomialAlgebra(r: real, f: real, kr: real)
    requires f > 0.0 && kr >= 1.0
    ensures (r * (kr - 0.5)) / (kr * f) / (2.0 * kr + 1.0)
         == (r / f / (2.0 * kr - 1.0))
          * ((2.0 * kr - 1.0) * (2.0 * kr - 1.0) / ((2.0 * kr + 1.0) * (2.0 * kr)))
  {
    HalfBinomialCommonDenominator(r, f, kr);
    HalfBinomialSplit(r, f, kr);
  }

  /** The common-denominator form split into the coefficient at k-1 and the recurrence factor. */
  lemma HalfBinomialSplit(r: real, f: real, kr: real)
    requires f > 0.0 && kr >= 1.0
    ensures (r * (2.0 * kr - 1.0)) / (((2.0 * kr) * f) * (2.0 * kr + 1.0))
         == (r / f / (2.0 * kr - 1.0))
          * ((2.0 * kr - 1.0) * (2.0 * kr - 1.0) / ((2.0 * kr + 1.0) * (2.0 * kr)))
  {
    HalfBinomialCore(r, f, 2.0 * kr + 1.0, 2.0 * kr - 1.0, 2.0 * kr);
  }

  /**
   * The same identity for named values: h and h1 the coefficients at k and
   * k-1, rk, fk, r and f the rising factorials and factorials at k and k-1,
   * q = a^2/(b c) the recurrence factor.
   */
  lemma HalfBinomialRecurrence(h: real, h1: real, q: real, rk: real, fk: real, r: real, f: real,
                               kr: real, s: real, m: real, t: real, a: real, b: real, c: real)
    requires f > 0.0 && kr >= 1.0
    requires s == kr - 0.5 && m == 2.0 * kr + 1.0 && t == 2.0 * kr - 1.0
    requires a == 2.0 * kr - 1.0 && b == 2.0 * kr + 1.0 && c == 2.0 * kr
    requires rk == r * s && fk == kr * f
    requires h == rk / fk / m && h1 == r / f / t && q == a * a / (b * c)
    ensures h == h1 * q
  {
    HalfBinomialNamed(h, h1, q, r, f, kr);
  }

  /** The identity with the coefficients and the factor named, over (1/2)_(k-1), (k-1)! and k. */
  lemma HalfBinomialNamed(h: real, h1: real, q: real, r: real, f: real, kr: real)
    requires f > 0.0 && kr >= 1.0
    requires h == (r * (kr - 0.5)) / (kr * f) / (2.0 * kr + 1.0)
    requires h1 == r / f / (2.0 * kr - 1.0)
    requires q == (2.0 * kr - 1.0) * (2.0 * kr - 1.0) / ((2.0 * kr + 1.0) * (2.0 * kr))
    ensures h == h1 * q
  {
    HalfBinomialAlgebra(r, f, kr);
  }
}
