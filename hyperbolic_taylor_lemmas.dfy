/** What `taylor_term` promises: its zeros, its index-0 values, and recurrences that agree with the closed forms. */
module HyperbolicTaylorLemmas {
  import opened HyperbolicExpr
  import opened HyperbolicTaylor
  import opened ExactArith

  /** Every function gives 0 at a negative index. */
  lemma NegativeIndexIsZero(k: Kind, n: int, prev: seq<Term>, bernoulli: nat -> real)
    requires n < 0
    ensures TaylorTerm(k, n, prev, bernoulli) == ZeroTerm
  {
  }

  /** The odd functions have no even terms past index 0, and cosh has no odd terms. */
  lemma WrongParityIsZero(k: Kind, n: int, prev: seq<Term>, bernoulli: nat -> real)
    requires n > 0
    requires if k == Cosh then n % 2 == 1 else n % 2 == 0
    ensures TaylorTerm(k, n, prev, bernoulli) == ZeroTerm
  {
  }

  /** The terms at index 0: 1/x for coth, pi*I/2 for acosh and acoth, 1 for cosh, 0 for the rest. */
  lemma IndexZeroValues(k: Kind, prev: seq<Term>, bernoulli: nat -> real)
    ensures k == Coth ==> TaylorTerm(k, 0, prev, bernoulli) == Mono(Real(1.0), -1)
    ensures k == Acosh || k == Acoth ==> TaylorTerm(k, 0, prev, bernoulli) == Mono(Coef(0.0, 0.0, 0.5), 0)
    ensures k == Cosh && |prev| <= 2 ==> TaylorTerm(k, 0, prev, bernoulli) == Mono(Real(1.0), 0)
    ensures k in {Sinh, Tanh, Asinh, Atanh} ==> TaylorTerm(k, 0, prev, bernoulli) == ZeroTerm
  {
  }

  /** atanh and acoth share every term but the one at index 0. */
  lemma AtanhAcothAgree(n: int, prev: seq<Term>, bernoulli: nat -> real)
    requires n != 0
    ensures TaylorTerm(Atanh, n, prev, bernoulli) == TaylorTerm(Acoth, n, prev, bernoulli)
  {
  }

  /** A term times a real, collapsing to zero as SymPy does. */
  function ScaleTerm(t: Term, q: real): Term {
    match t
    case Undefined => Undefined
    case Mono(c, p) => MkMono(Scale(c, q), p)
  }

  /** a(a-1)b/f is a b/f scaled by a-1, and zero exactly when a b/f is, for a >= 2. */
  lemma TanhCothCoefficients(a: real, b: real, f: real)
    requires a >= 2.0 && f > 0.0
    ensures Scale(Real(a * b / f), a - 1.0) == Real(a * (a - 1.0) * b / f)
    ensures a * (a - 1.0) * b / f == 0.0 <==> a * b / f == 0.0
  {
    assert a * (a - 1.0) * b / f == (a * b / f) * (a - 1.0);
  }

  /** The tanh coefficient is 2^(n+1) - 1 times the coth coefficient, for every positive n. */
  lemma TanhFromCoth(n: int, prev: seq<Term>, bernoulli: nat -> real)
    requires n >= 1
    ensures TaylorTerm(Tanh, n, prev, bernoulli)
         == ScaleTerm(TaylorTerm(Coth, n, prev, bernoulli), (Pow2(n + 1) - 1) as real)
  {
    if n % 2 == 1 {
      var a, b, f := TanhCothParts(n, bernoulli);
      ScaleTanhCoth(a, b, f, n);
      assert TaylorTerm(Tanh, n, prev, bernoulli) == MkMono(Real(a * (a - 1.0) * b / f), n);
      assert TaylorTerm(Coth, n, prev, bernoulli) == MkMono(Real(a * b / f), n);
    }
  }

  /** coth's term a b/f x^n, scaled by a-1, is tanh's term a(a-1)b/f x^n. */
  lemma ScaleTanhCoth(a: real, b: real, f: real, n: int)
    requires a >= 2.0 && f > 0.0
    ensures ScaleTerm(MkMono(Real(a * b / f), n), a - 1.0) == MkMono(Real(a * (a - 1.0) * b / f), n)
  {
    TanhCothCoefficients(a, b, f);
  }

  /** The factors 2^(n+1), B(n+1) and (n+1)! of the tanh and coth coefficients, named. */
  lemma TanhCothParts(n: int, bernoulli: nat -> real) returns (a: real, b: real, f: real)
    requires n >= 1
    ensures a == Pow2(n + 1) as real && (Pow2(n + 1) - 1) as real == a - 1.0 && a >= 2.0
    ensures b == bernoulli(n + 1) && f == Factorial(n + 1) && f > 0.0
  {
    a, b, f := Pow2(n + 1) as real, bernoulli(n + 1), Factorial(n + 1);
    assert Pow2(n + 1) == 2 * Pow2(n);
  }

  /** n! = n (n-1) (n-2)!, as reals. */
  lemma FactorialStep(n: nat)
    requires n >= 2
    ensures Factorial(n) == ((n * (n - 1)) as real) * Factorial(n - 2)
  {
    var a, b := FactorialParts(n);
    var b', c := FactorialParts(n - 1);
    CastMul(n, n - 1);
    MulChain(a, b, c, n as real, (n - 1) as real);
  }

  /** n! = n (n-1) (n-2)!, read as a step on reciprocals. */
  lemma ReciprocalFactorialStep(n: nat)
    requires n >= 2
    ensures Scale(Real(1.0 / Factorial(n - 2)), 1.0 / ((n * (n - 1)) as real))
         == Real(1.0 / Factorial(n))
  {
    var fn, f2, d := FactorialStepParts(n);
    ScaleReciprocal(f2, d, fn);
  }

  /** n! = d (n-2)! with d = n (n-1) > 0, all three values named. */
  lemma FactorialStepParts(n: nat) returns (fn: real, f2: real, d: real)
    requires n >= 2
    ensures fn == Factorial(n) && f2 == Factorial(n - 2) && d == ((n * (n - 1)) as real)
    ensures d > 0.0 && f2 > 0.0 && fn == d * f2
  {
    FactorialStep(n);
    fn, f2, d := Factorial(n), Factorial(n - 2), (n * (n - 1)) as real;
    assert n * (n - 1) >= n;
  }

  /** 1/f scaled by 1/d is 1/(d f). */
  lemma ScaleReciprocal(f: real, d: real, g: real)
    requires f > 0.0 && d > 0.0 && g == d * f
    ensures Scale(Real(1.0 / f), 1.0 / d) == Real(1.0 / g)
  {
    ReciprocalMul(f, d);
  }

  /** sinh: the recurrence p*x^2/(n(n-1)) from the closed term at n-2 gives the closed term x^n/n!. */
  lemma SinhRecurrence(n: int, prev: seq<Term>, bernoulli: nat -> real)
    requires n >= 2 && |prev| > 2
    requires TwoBack(prev) == Closed(Sinh, n - 2, bernoulli)
    ensures TaylorTerm(Sinh, n, prev, bernoulli) == Closed(Sinh, n, bernoulli)
  {
    if n % 2 == 1 {
      ReciprocalFactorialStep(n);
    }
  }

  /** cosh: the same recurrence from the closed term at n-2 gives x^n/n!. */
  lemma CoshRecurrence(n: int, prev: seq<Term>, bernoulli: nat -> real)
    requires n >= 2 && |prev| > 2
    requires TwoBack(prev) == Closed(Cosh, n - 2, bernoulli)
    ensures TaylorTerm(Cosh, n, prev, bernoulli) == Closed(Cosh, n, bernoulli)
  {
    if n % 2 == 0 {
      ReciprocalFactorialStep(n);
    }
  }

  /** (1/2)_k = (1/2)_(k-1) (k - 1/2), with both values named. */
  lemma RisingParts(k: nat) returns (rk: real, r: real, s: real)
    requires k >= 1
    ensures rk == RisingFactorial(0.5, k) && r == RisingFactorial(0.5, k - 1)
    ensures s == (k as real) - 0.5 && rk == r * s
  {
    rk, r, s := RisingFactorial(0.5, k), RisingFactorial(0.5, k - 1), (k as real) - 0.5;
  }

  /** k! = k (k-1)!, with both values named. */
  lemma FactorialParts(k: nat) returns (fk: real, f: real)
    requires k >= 1
    ensures fk == Factorial(k) && f == Factorial(k - 1)
    ensures f > 0.0 && fk == (k as real) * f
  {
    fk, f := Factorial(k), Factorial(k - 1);
  }

  /** The recurrence factor for n = 2k+1 as a^2/(b c), with a, b, c = 2k-1, 2k+1, 2k. */
  lemma RatioParts(k: nat) returns (q: real, a: real, b: real, c: real)
    requires k >= 1
    ensures q == RecurrenceRatio(2 * k + 1)
    ensures a == 2.0 * (k as real) - 1.0 && b == 2.0 * (k as real) + 1.0 && c == 2.0 * (k as real)
    ensures q == a * a / (b * c)
  {
    var n := 2 * k + 1;
    q, a, b, c := RecurrenceRatio(n), (n - 2) as real, n as real, (n - 1) as real;
  }

  /** The coefficients at k and k-1, with their last divisors 2k+1 and 2k-1 named. */
  lemma HalfBinomialParts(k: nat) returns (h: real, h1: real, m: real, t: real)
    requires k >= 1
    ensures h == HalfBinomial(k) && h1 == HalfBinomial(k - 1)
    ensures m == 2.0 * (k as real) + 1.0 && t == 2.0 * (k as real) - 1.0
    ensures h == RisingFactorial(0.5, k) / Factorial(k) / m
    ensures h1 == RisingFactorial(0.5, k - 1) / Factorial(k - 1) / t
  {
    h, h1, m, t := HalfBinomial(k), HalfBinomial(k - 1), (2 * k + 1) as real, (2 * (k - 1) + 1) as real;
  }

  /** (1/2)_k/k!/(2k+1) from its value at k-1: the factor is the recurrence's (n-2)^2/(n(n-1)), n = 2k+1. */
  lemma HalfBinomialStep(k: nat)
    requires k >= 1
    ensures HalfBinomial(k) == HalfBinomial(k - 1) * RecurrenceRatio(2 * k + 1)
  {
    var rk, r, s := RisingParts(k);
    var fk, f := FactorialParts(k);
    var q, a, b, c := RatioParts(k);
    var h, h1, m, t := HalfBinomialParts(k);
    HalfBinomialRecurrence(h, h1, q, rk, fk, r, f, k as real, s, m, t, a, b, c);
  }

  lemma HalfBinomialPositive(k: nat)
    ensures HalfBinomial(k) > 0.0
  {
    assert RisingFactorial(0.5, k) > 0.0;
  }

  /** An odd index n > 2 is 2k+1 for a k >= 1, and n-2 is the odd index 2(k-1)+1. */
  lemma OddIndex(n: int) returns (k: nat)
    requires n > 2 && n % 2 == 1
    ensures k >= 1 && (n - 1) / 2 == k && (n - 2) % 2 == 1 && (n - 2 - 1) / 2 == k - 1
  {
    k := (n - 1) / 2;
  }

  /** The closed asinh term at n = 2k+1 is the nonzero (-1)^k (1/2)_k/k!/(2k+1) x^n. */
  lemma AsinhClosedAt(n: int, k: nat, bernoulli: nat -> real)
    requires n >= 1 && n % 2 == 1 && (n - 1) / 2 == k
    ensures Sign(k) * HalfBinomial(k) != 0.0
    ensures Closed(Asinh, n, bernoulli) == Mono(Real(Sign(k) * HalfBinomial(k)), n)
  {
    HalfBinomialPositive(k);
  }

  /** The closed acosh term at n = 2k+1 is the nonzero -(1/2)_k/k!/(2k+1) I x^n. */
  lemma AcoshClosedAt(n: int, k: nat, bernoulli: nat -> real)
    requires n >= 1 && n % 2 == 1 && (n - 1) / 2 == k
    ensures -HalfBinomial(k) != 0.0
    ensures Closed(Acosh, n, bernoulli) == Mono(Imag(-HalfBinomial(k)), n)
  {
    HalfBinomialPositive(k);
  }

  /** The coefficients at k and k-1 and the recurrence factor, named, with h = h1 q. */
  lemma HalfBinomialStepValues(k: nat) returns (h: real, h1: real, q: real)
    requires k >= 1
    ensures h == HalfBinomial(k) && h1 == HalfBinomial(k - 1) && q == RecurrenceRatio(2 * k + 1)
    ensures h == h1 * q
  {
    h, h1, q := HalfBinomial(k), HalfBinomial(k - 1), RecurrenceRatio(2 * k + 1);
    HalfBinomialStep(k);
  }

  /** A real coefficient s h1 scaled by -q is -s h, when h = h1 q. */
  lemma ScaleRealStep(s: real, h1: real, q: real, h: real)
    requires h == h1 * q
    ensures Scale(Real(s * h1), -q) == Real(-s * h)
  {
    SignedProduct(s, h1, q, h);
  }

  /** An imaginary coefficient -h1 scaled by q is -h, when h = h1 q. */
  lemma ScaleImagStep(h1: real, q: real, h: real)
    requires h == h1 * q
    ensures Scale(Imag(-h1), q) == Imag(-h)
  {
    SignedProduct(1.0, h1, q, h);
  }

  /** asinh: the coefficient at k-1 times -(n-2)^2/(n(n-1)) is the coefficient at k. */
  lemma AsinhCoefficientStep(k: nat)
    requires k >= 1
    ensures Scale(Real(Sign(k - 1) * HalfBinomial(k - 1)), -RecurrenceRatio(2 * k + 1))
         == Real(Sign(k) * HalfBinomial(k))
  {
    var h, h1, q := HalfBinomialStepValues(k);
    assert Sign(k) == -Sign(k - 1);
    ScaleRealStep(Sign(k - 1), h1, q, h);
  }

  /** acosh: the coefficient at k-1 times (n-2)^2/(n(n-1)) is the coefficient at k. */
  lemma AcoshCoefficientStep(k: nat)
    requires k >= 1
    ensures Scale(Imag(-HalfBinomial(k - 1)), RecurrenceRatio(2 * k + 1)) == Imag(-HalfBinomial(k))
  {
    var h, h1, q := HalfBinomialStepValues(k);
    ScaleImagStep(h1, q, h);
  }

  /** asinh: -p (n-2)^2/(n(n-1)) x^2 from the closed term at n-2 gives (-1)^k (1/2)_k/k! x^n/n. */
  lemma AsinhRecurrence(n: int, prev: seq<Term>, bernoulli: nat -> real)
    requires n > 2 && |prev| >= 2
    requires TwoBack(prev) == Closed(Asinh, n - 2, bernoulli)
    ensures TaylorTerm(Asinh, n, prev, bernoulli) == Closed(Asinh, n, bernoulli)
  {
    if n % 2 == 1 {
      var k := OddIndex(n);
      AsinhClosedAt(n - 2, k - 1, bernoulli);
      AsinhRecurrenceAt(n, k, prev, bernoulli);
      AsinhClosedAt(n, k, bernoulli);
    }
  }

  /** asinh at n = 2k+1: the recurrence turns the coefficient at k-1 into the one at k. */
  lemma AsinhRecurrenceAt(n: int, k: nat, prev: seq<Term>, bernoulli: nat -> real)
    requires k >= 1 && n > 2 && n % 2 == 1 && (n - 1) / 2 == k && |prev| >= 2
    requires TwoBack(prev) == Mono(Real(Sign(k - 1) * HalfBinomial(k - 1)), n - 2)
    ensures TaylorTerm(Asinh, n, prev, bernoulli) == Mono(Real(Sign(k) * HalfBinomial(k)), n)
  {
    assert TaylorTerm(Asinh, n, prev, bernoulli) == Recur(TwoBack(prev), -RecurrenceRatio(n));
    AsinhCoefficientStep(k);
    AsinhClosedAt(n, k, bernoulli);
  }

  /** acosh: p (n-2)^2/(n(n-1)) x^2 from the closed term at n-2 gives -(1/2)_k/k! I x^n/n. */
  lemma AcoshRecurrence(n: int, prev: seq<Term>, bernoulli: nat -> real)
    requires n > 2 && |prev| >= 2
    requires TwoBack(prev) == Closed(Acosh, n - 2, bernoulli)
    ensures TaylorTerm(Acosh, n, prev, bernoulli) == Closed(Acosh, n, bernoulli)
  {
    if n % 2 == 1 {
      var k := OddIndex(n);
      AcoshClosedAt(n - 2, k - 1, bernoulli);
      AcoshRecurrenceAt(n, k, prev, bernoulli);
      AcoshClosedAt(n, k, bernoulli);
    }
  }

  /** acosh at n = 2k+1: the recurrence turns the coefficient at k-1 into the one at k. */
  lemma AcoshRecurrenceAt(n: int, k: nat, prev: seq<Term>, bernoulli: nat -> real)
    requires k >= 1 && n > 2 && n % 2 == 1 && (n - 1) / 2 == k && |prev| >= 2
    requires TwoBack(prev) == Mono(Imag(-HalfBinomial(k - 1)), n - 2)
    ensures TaylorTerm(Acosh, n, prev, bernoulli) == Mono(Imag(-HalfBinomial(k)), n)
  {
    assert TaylorTerm(Acosh, n, prev, bernoulli) == Recur(TwoBack(prev), RecurrenceRatio(n));
    AcoshCoefficientStep(k);
    AcoshClosedAt(n, k, bernoulli);
  }

  /**
   * A caller that passes every earlier term, each equal to its closed form,
   * gets the closed form for the next term too, whichever branch runs.
   */
  lemma ProtocolGivesClosedForm(k: Kind, prev: seq<Term>, bernoulli: nat -> real)
    requires forall i | 0 <= i < |prev| :: prev[i] == Closed(k, i, bernoulli)
    ensures TaylorTerm(k, |prev|, prev, bernoulli) == Closed(k, |prev|, bernoulli)
  {
    var n := |prev|;
    if n > 2 {
      assert TwoBack(prev) == Closed(k, n - 2, bernoulli);
      match k
      case Sinh => SinhRecurrence(n, prev, bernoulli);
      case Cosh => CoshRecurrence(n, prev, bernoulli);
      case Asinh => AsinhRecurrence(n, prev, bernoulli);
      case Acosh => AcoshRecurrence(n, prev, bernoulli);
      case _ =>
    }
  }

  /** The first m terms of k's expansion, each computed from all the terms before it. */
  function Series(k: Kind, m: nat, bernoulli: nat -> real): (s: seq<Term>)
    ensures |s| == m
  {
    if m == 0 then []
    else
      var s := Series(k, m - 1, bernoulli);
      s + [TaylorTerm(k, m - 1, s, bernoulli)]
  }

  /** Building the expansion term by term through the recurrences gives exactly the closed forms. */
  lemma {:induction false} SeriesIsClosedForm(k: Kind, m: nat, bernoulli: nat -> real)
    ensures forall i | 0 <= i < m :: Series(k, m, bernoulli)[i] == Closed(k, i, bernoulli)
  {
    if m > 0 {
      var s := Series(k, m - 1, bernoulli);
      SeriesIsClosedForm(k, m - 1, bernoulli);
      ProtocolGivesClosedForm(k, s, bernoulli);
      assert Series(k, m, bernoulli) == s + [TaylorTerm(k, m - 1, s, bernoulli)];
    }
  }
}
