# Hyperbolic functions and the A series of Lie algebras, modelled in Dafny

This project models two parts of SymPy.

**The eight hyperbolic classes** of `sympy/functions/elementary/hyperbolic.py`: sinh, cosh, tanh, coth,
asinh, acosh, atanh and acoth. Each class has four members in the model:

- `eval` is the automatic canonicalisation that runs when a node f(arg) is built. It handles the
  sentinel numbers (nan, oo, -oo, 0, 1, -1), complex infinity, and the bridge from a pure imaginary
  argument c*I to a circular function. It also handles the parity rule for a negated argument, the
  cross-identities such as sinh(acosh(x)), and acosh's table of exact constants.
- `taylor_term` is the n-th Maclaurin term. For four of the classes it is a recurrence on the
  previously computed terms.
- `fdiff` is the first derivative.
- `inverse` is the inverse class.

**The `TypeA` class** of `sympy/liealgebras/type_a.py` describes A_n = su(n+1). The model covers:

- the dimension of V and the roots e_i - e_j, built in place in a list;
- the simple roots and the highest root;
- the Cartan matrix, built by a loop that writes into 2·I_n;
- the counts of roots and generators;
- the name of the algebra and its Dynkin diagram.

Expressions are a small datatype (`HyperbolicExpr.Expr`) with these parts:

- literals are exact reals;
- oo, -oo, complex infinity and nan are constants;
- c*I has its own node;
- negation follows SymPy's unary minus;
- the circular functions, log, sqrt and arithmetic are uninterpreted nodes.

`Eval(k, arg)` returns the replacement `eval` computes, or `None` when the node stays as built.
`Build(k, arg)` is the node SymPy actually creates. For acosh, `Eval` keeps SymPy's parity rule
-acosh(-arg) as written; `AcoshCorrected` is acosh's `eval` with that rule replaced (see Findings). The two are mutually recursive through the
parity rule. A Taylor term is `Mono(coefficient, power)` with an exact coefficient `re + im·I + q·π·I`,
or `Undefined` where SymPy would divide by zero.

## Model

| member | source | states |
|---|---|---|
| HyperbolicExpr.Negate | sympy/functions/elementary/hyperbolic.py:67-68 | negating an argument whose leading coefficient is negative yields a smaller expression, or one of equal size without a negative coefficient, so the parity rule terminates |
| HyperbolicExpr.NegatePositive | sympy/functions/elementary/hyperbolic.py:78-79 | -x of a positive x has a negative coefficient, and -(-x) == x |
| HyperbolicExpr.NegatedArgumentIsNotNegated | sympy/functions/elementary/hyperbolic.py:78-79 | f(-arg) is called on an argument that is no longer negated |
| HyperbolicEval.NumberSentinel | sympy/functions/elementary/hyperbolic.py:55-68 | no contract of its own: the `is_Number` rows of every class; SentinelStep, SinhCoshSentinels, TanhCothSentinels, AsinhAcoshSentinels, AtanhAcothSentinels and NaNIsAbsorbing state them |
| HyperbolicEval.ComplexInfinityValue | sympy/functions/elementary/hyperbolic.py:70-71 | no contract of its own: the `zoo` row of every class; ComplexInfinityValues states it |
| HyperbolicEval.Bridge | sympy/functions/elementary/hyperbolic.py:73-76 | no contract of its own: the c·I rewrite of every class; BridgeStep, TanhBridgeIsOdd, CothBridgeIsOdd and AcoshBridgeIgnoresSign state it |
| HyperbolicEval.CrossIdentity | sympy/functions/elementary/hyperbolic.py:81-94 | no contract of its own: f(g(x)) for a direct f and an inverse g; CrossTableCoversDirectOfInverse, InverseCancels and InverseRoundTrip state it |
| HyperbolicEval.AcoshConstant | sympy/functions/elementary/hyperbolic.py:715-742 | no contract of its own: acosh's constant table; AcoshKeysAreNumbers, AcoshConstantStep, AcoshTableObeysReflection and AcoshAtHalves state it |
| HyperbolicEval.Parity | sympy/functions/elementary/hyperbolic.py:78-79 | no contract of its own: -f(-arg), or cosh(-arg) for cosh; EvalOfNegated, OddParity, CoshIsEven and AcoshOfNegation state it |
| HyperbolicEval.Eval | sympy/functions/elementary/hyperbolic.py:55-94 | no contract of its own: the first row of Rule that matches, or the parity rule on Build at the negation; the HyperbolicEvalLemmas rows state it |
| HyperbolicEval.Build | sympy/functions/elementary/hyperbolic.py:55-94 | no contract of its own: the replacement `eval` gives, else the node f(arg); the HyperbolicEvalLemmas rows state it |
| HyperbolicEval.AcoshCorrected | sympy/functions/elementary/hyperbolic.py:698-755 | no contract of its own: acosh's `eval` with the corrected parity rule; AcoshCorrectedAgreesElsewhere, AcoshReflection, AcoshBelowMinusOne and AcoshCorrectedLeavesSymbolic state it |
| HyperbolicEval.AcoshKeysAreNumbers | sympy/functions/elementary/hyperbolic.py:715-742 | every key of acosh's constant table is a number, so the `is_number` guard never hides a key |
| HyperbolicEval.Rule | sympy/functions/elementary/hyperbolic.py:54-94 | the chain of tests asks for the parity rule only on an argument with a negative coefficient, and always on its negation |
| HyperbolicEval.AcoshRule | sympy/functions/elementary/hyperbolic.py:697-755 | acosh's chain asks for the parity rule only on an argument with a negative coefficient, and always on its negation |
| HyperbolicEvalLemmas.NaNIsAbsorbing | sympy/functions/elementary/hyperbolic.py:59-60 | every one of the eight functions maps nan to nan |
| HyperbolicEvalLemmas.SentinelStep | sympy/functions/elementary/hyperbolic.py:58-68 | a number with a sentinel row gets that row's value before any other rule |
| HyperbolicEvalLemmas.SinhCoshSentinels | sympy/functions/elementary/hyperbolic.py:207-221 | sinh(±oo) = ±oo, sinh(0) = 0, cosh(±oo) = oo, cosh(0) = 1 |
| HyperbolicEvalLemmas.TanhCothSentinels | sympy/functions/elementary/hyperbolic.py:488-502 | tanh and coth send ±oo to ±1; tanh(0) = 0 and coth(0) = 0 as written |
| HyperbolicEvalLemmas.AsinhAcoshSentinels | sympy/functions/elementary/hyperbolic.py:697-713 | asinh(±1) = log(sqrt 2 ± 1), acosh(0) = π·I/2, acosh(1) = 0, acosh(-1) = π·I |
| HyperbolicEvalLemmas.AtanhAcothSentinels | sympy/functions/elementary/hyperbolic.py:886-904 | atanh(±1) = ±oo, acoth(±oo) = 0, acoth(0) = π·I/2, acoth(±1) = ±oo |
| HyperbolicEvalLemmas.PositiveLiteralUnchanged | sympy/functions/elementary/hyperbolic.py:58-68 | a positive literal that is not a sentinel leaves sinh, cosh, tanh and coth unevaluated |
| HyperbolicEvalLemmas.ComplexInfinityValues | sympy/functions/elementary/hyperbolic.py:632-633 | zoo goes to nan for five functions, to zoo for asinh, to oo for acosh and to 0 for acoth |
| HyperbolicEvalLemmas.RuleOnNegated | sympy/functions/elementary/hyperbolic.py:78-79 | a syntactically negated non-literal argument is sent to the parity rule |
| HyperbolicEvalLemmas.RuleOnNegativeLiteral | sympy/functions/elementary/hyperbolic.py:67-68 | a negative literal without a sentinel row is sent to the parity rule |
| HyperbolicEvalLemmas.RuleOnNegation | sympy/functions/elementary/hyperbolic.py:67-79 | for every positive x, -x without a sentinel row is sent to the parity rule |
| HyperbolicEvalLemmas.EvalOfNegated | sympy/functions/elementary/hyperbolic.py:219-232 | f(-x) evaluates to the parity image of f(x) for every function but acosh |
| HyperbolicEvalLemmas.OddParityAtInfinity | sympy/functions/elementary/hyperbolic.py:61-64 | the sentinel rows of the odd functions at -oo agree with f(-oo) = -f(oo) |
| HyperbolicEvalLemmas.OddParityAtOne | sympy/functions/elementary/hyperbolic.py:886-904 | atanh and acoth at -1 agree with f(-1) = -f(1) |
| HyperbolicEvalLemmas.OddParity | sympy/functions/elementary/hyperbolic.py:67-79 | sinh, tanh, coth, asinh, atanh and acoth are odd: f(-x) = -f(x) for every positive x; the one exception is asinh at ±1 |
| HyperbolicEvalLemmas.CoshIsEven | sympy/functions/elementary/hyperbolic.py:219-232 | cosh(-x) = cosh(x) for every positive x |
| HyperbolicEvalLemmas.AcoshParityStep | sympy/functions/elementary/hyperbolic.py:753-755 | acosh of a negated argument that no earlier row catches is built as -acosh(-arg) |
| HyperbolicEvalLemmas.AcoshOfNegation | sympy/functions/elementary/hyperbolic.py:753-755 | for every positive x that no sentinel or table row catches, acosh(-x) = -acosh(x), as if acosh were odd |
| HyperbolicEvalLemmas.AcoshAtMinusTwo | sympy/functions/elementary/hyperbolic.py:753-755 | acosh(-2) is built as -acosh(2); the corrected rule gives acosh(2) + π·I |
| HyperbolicEvalLemmas.AcoshCorrectedAgreesElsewhere | sympy/functions/elementary/hyperbolic.py:698-752 | the corrected acosh and SymPy's agree on every argument the parity rule does not reach |
| HyperbolicEvalLemmas.AcoshReflection | sympy/functions/elementary/hyperbolic.py:753-755 | corrected rule (Findings): for a real literal 0 < x < 1 outside the table, acosh(-x) = π·I - acosh(x) |
| HyperbolicEvalLemmas.AcoshBelowMinusOne | sympy/functions/elementary/hyperbolic.py:753-755 | corrected rule (Findings): for a real literal x > 1, acosh(-x) = acosh(x) + π·I |
| HyperbolicEvalLemmas.AcoshCorrectedLeavesSymbolic | sympy/functions/elementary/hyperbolic.py:753-755 | corrected rule (Findings): acosh of a negated non-literal stays unevaluated |
| HyperbolicEvalLemmas.AcoshConstantStep | sympy/functions/elementary/hyperbolic.py:739-742 | a table key gives the table's value, multiplied by I when the key is real |
| HyperbolicEvalLemmas.AcoshTableObeysReflection | sympy/functions/elementary/hyperbolic.py:716-738 | every pair a, -a of real table keys, all of them in (-1, 1), satisfies acosh(-a) = π·I - acosh(a) |
| HyperbolicEvalLemmas.SurdReflection | sympy/functions/elementary/hyperbolic.py:716-738 | the same reflection holds for the surd keys p and -p |
| HyperbolicEvalLemmas.AcoshSentinelsObeyReflection | sympy/functions/elementary/hyperbolic.py:706-713 | the sentinels acosh(1) = 0 and acosh(-1) = π·I satisfy the same reflection |
| HyperbolicEvalLemmas.AcoshAsWrittenContradictsSentinels | sympy/functions/elementary/hyperbolic.py:753-755 | the rule -acosh(-a) conflicts with acosh(1) = 0 and acosh(-1) = π·I |
| HyperbolicEvalLemmas.AcoshAsWrittenContradictsTable | sympy/functions/elementary/hyperbolic.py:753-755 | the rule -acosh(-a) would make acosh(-1/2) = -π·I/3, but the table gives 2π·I/3, which is π·I - acosh(1/2) |
| HyperbolicEvalLemmas.AcoshAtHalves | sympy/functions/elementary/hyperbolic.py:716-742 | acosh(1/2) = π·I/3 and acosh(-1/2) = 2π·I/3 |
| HyperbolicEvalLemmas.BridgeStep | sympy/functions/elementary/hyperbolic.py:73-76 | f(c·I) is the bridge formula of f, apart from acosh's table keys ±I |
| HyperbolicEvalLemmas.TanhBridgeIsOdd | sympy/functions/elementary/hyperbolic.py:378-383 | tanh(-c·I) = -tanh(c·I) |
| HyperbolicEvalLemmas.CothBridgeIsOdd | sympy/functions/elementary/hyperbolic.py:507-512 | coth(-c·I) = -coth(c·I) |
| HyperbolicEvalLemmas.BridgeKeepsTanhCothOdd | sympy/functions/elementary/hyperbolic.py:378-383 | the sign branch of the tanh and coth bridges keeps both functions odd |
| HyperbolicEvalLemmas.AcoshImaginaryKeys | sympy/functions/elementary/hyperbolic.py:716-738 | the only imaginary table keys are I and -I |
| HyperbolicEvalLemmas.AcoshBridgeIgnoresSign | sympy/functions/elementary/hyperbolic.py:747-752 | as written, acosh gives c·I and -c·I the same value I·acos(-c) |
| HyperbolicEvalLemmas.BridgeAppliesToEveryImaginaryMultiple | sympy/functions/elementary/hyperbolic.py:73-79 | the bridge comes before the parity rule, so it handles every c·I |
| HyperbolicEvalLemmas.CrossTableCoversDirectOfInverse | sympy/functions/elementary/hyperbolic.py:81-94 | each of sinh, cosh, tanh and coth has a cross-identity for each of the four inverse functions |
| HyperbolicEvalLemmas.DirectInsideIsUnchanged | sympy/functions/elementary/hyperbolic.py:81-94 | no function rewrites f(g(x)) when g is a direct function |
| HyperbolicEvalLemmas.InverseOutsideIsUnchanged | sympy/functions/elementary/hyperbolic.py:612-641 | the inverse functions have no cross-identities |
| HyperbolicTaylor.TaylorTerm | sympy/functions/elementary/hyperbolic.py:97-111 | no contract of its own: the `taylor_term` of all eight classes (sinh here; cosh 249-259, tanh 404-415, coth 533-544, asinh 645-657, acosh 759-773, atanh 846-851, acoth 919-926); the HyperbolicTaylorLemmas rows state it |
| HyperbolicTaylor.Closed | sympy/functions/elementary/hyperbolic.py:97-111 | no contract of its own: the term computed without previous terms; ProtocolGivesClosedForm and SeriesIsClosedForm show every recurrence reproduces it |
| HyperbolicTaylor.MkMono | sympy/functions/elementary/hyperbolic.py:96-111 | no contract of its own: the term c·x^pow, collapsing to 0 when c is zero; WrongParityIsZero and IndexZeroValues state it |
| HyperbolicTaylor.Factorial | sympy/functions/elementary/hyperbolic.py:111 | n! >= 1 |
| HyperbolicTaylor.RisingFactorial | sympy/functions/elementary/hyperbolic.py:655 | (x)_k > 0 for x > 0 |
| HyperbolicTaylorLemmas.NegativeIndexIsZero | sympy/functions/elementary/hyperbolic.py:100-103 | every function's term at a negative index is 0 |
| HyperbolicTaylorLemmas.WrongParityIsZero | sympy/functions/elementary/hyperbolic.py:249-251 | odd functions have no even terms past index 0, and cosh has no odd terms |
| HyperbolicTaylorLemmas.IndexZeroValues | sympy/functions/elementary/hyperbolic.py:533-537 | the index-0 terms: 1/x for coth, π·I/2 for acosh and acoth, 1 for cosh, 0 for the rest |
| HyperbolicTaylorLemmas.AtanhAcothAgree | sympy/functions/elementary/hyperbolic.py:917-926 | atanh and acoth share every term except the one at index 0 |
| HyperbolicTaylorLemmas.TanhFromCoth | sympy/functions/elementary/hyperbolic.py:404-415 | the tanh coefficient is (2^(n+1) - 1) times the coth coefficient |
| HyperbolicTaylorLemmas.FactorialStep | sympy/functions/elementary/hyperbolic.py:107-111 | n! = n(n-1)(n-2)! |
| HyperbolicTaylorLemmas.ReciprocalFactorialStep | sympy/functions/elementary/hyperbolic.py:107-111 | 1/(n-2)! scaled by 1/(n(n-1)) is 1/n! |
| HyperbolicTaylorLemmas.SinhRecurrence | sympy/functions/elementary/hyperbolic.py:107-111 | sinh's recurrence p·x²/(n(n-1)), from the closed term at n-2, gives the closed term x^n/n! |
| HyperbolicTaylorLemmas.CoshRecurrence | sympy/functions/elementary/hyperbolic.py:255-259 | cosh's recurrence gives the closed term x^n/n! |
| HyperbolicTaylorLemmas.HalfBinomialStep | sympy/functions/elementary/hyperbolic.py:650-657 | (1/2)_k/k!/(2k+1) is its value at k-1 times the recurrence factor (n-2)²/(n(n-1)), n = 2k+1 |
| HyperbolicTaylorLemmas.HalfBinomialPositive | sympy/functions/elementary/hyperbolic.py:655-657 | the coefficient magnitude (1/2)_k/k!/(2k+1) is positive |
| HyperbolicTaylorLemmas.AsinhClosedAt | sympy/functions/elementary/hyperbolic.py:654-657 | asinh's closed term at 2k+1 is the nonzero (-1)^k (1/2)_k/k! x^n/n |
| HyperbolicTaylorLemmas.AcoshClosedAt | sympy/functions/elementary/hyperbolic.py:770-773 | acosh's closed term at 2k+1 is the nonzero -(1/2)_k/k! I x^n/n |
| HyperbolicTaylorLemmas.AsinhCoefficientStep | sympy/functions/elementary/hyperbolic.py:650-657 | asinh's coefficient at k-1 times -(n-2)²/(n(n-1)) is its coefficient at k |
| HyperbolicTaylorLemmas.AcoshCoefficientStep | sympy/functions/elementary/hyperbolic.py:766-773 | acosh's coefficient at k-1 times (n-2)²/(n(n-1)) is its coefficient at k |
| HyperbolicTaylorLemmas.AsinhRecurrence | sympy/functions/elementary/hyperbolic.py:650-657 | asinh's recurrence, from the closed term at n-2, gives the closed term at n |
| HyperbolicTaylorLemmas.AcoshRecurrence | sympy/functions/elementary/hyperbolic.py:766-773 | acosh's recurrence, from the closed term at n-2, gives the closed term at n |
| HyperbolicTaylorLemmas.ProtocolGivesClosedForm | sympy/functions/elementary/hyperbolic.py:96-111 | a caller that passes all earlier terms in closed form gets the next term in closed form, whichever branch runs |
| HyperbolicTaylorLemmas.SeriesIsClosedForm | sympy/functions/elementary/hyperbolic.py:643-657 | building the series term by term through the recurrences gives exactly the closed forms, for all eight functions |
| HyperbolicCalculus.FDiff | sympy/functions/elementary/hyperbolic.py:39-46 | the derivative exists exactly for argindex 1; any other index raises ArgumentIndexError carrying the function class and the index |
| HyperbolicCalculus.Inverse | sympy/functions/elementary/hyperbolic.py:48-52 | inverse swaps a direct class with an inverse class; only cosh has none |
| HyperbolicCalculus.SinhCoshDerivativeCycle | sympy/functions/elementary/hyperbolic.py:201-205 | d sinh = cosh and d cosh = sinh |
| HyperbolicCalculus.SinhDerivativeIsEven | sympy/functions/elementary/hyperbolic.py:39-46 | sinh's derivative takes the same value at -x and at x |
| HyperbolicCalculus.CoshDerivativeIsOdd | sympy/functions/elementary/hyperbolic.py:201-205 | cosh's derivative changes sign with x |
| HyperbolicCalculus.AtanhAcothSameDerivative | sympy/functions/elementary/hyperbolic.py:880-884 | atanh and acoth fail on the same indices, and for argindex 1 both give 1/(1 - x²) |
| HyperbolicCalculus.InverseIsInvolution | sympy/functions/elementary/hyperbolic.py:861-865 | inverse(inverse(f)) = f for every class that has an inverse, except acosh |
| HyperbolicCalculus.InverseCancels | sympy/functions/elementary/hyperbolic.py:81-82 | a direct function applied to its own inverse's node returns the argument |
| HyperbolicCalculus.InverseRoundTrip | sympy/functions/elementary/hyperbolic.py:667-671 | f(f⁻¹(x)) = x whenever SymPy leaves f⁻¹(x) as built |
| TypeA.Init | sympy/liealgebras/type_a.py:15-17 | construction succeeds exactly for n >= 1 and keeps n |
| TypeA.Dimension | sympy/liealgebras/type_a.py:20-31 | the dimension of V is the length of every root basic_root builds, and such a root exists |
| TypeA.PyIndex | sympy/liealgebras/type_a.py:42-46 | a list index is valid exactly in [-len, len), and a negative index counts from the end |
| TypeA.BasicRoot | sympy/liealgebras/type_a.py:34-46 | the in-place construction returns the vector of BasicRootOf, or nothing where the indexing raises |
| TypeA.Roots | sympy/liealgebras/type_a.py:70-75 | roots() is the number of ordered pairs of distinct indices of V, each of which names one root e_i - e_j |
| TypeA.RootPairs | sympy/liealgebras/type_a.py:70-75 | there are m(m-1) ordered pairs of distinct indices below m |
| TypeA.CartanMatrix | sympy/liealgebras/type_a.py:77-107 | the loop yields the n×n matrix with 2 on the diagonal, -1 beside it and 0 elsewhere; n = 1 raises |
| TypeA.BasisAsWritten | sympy/liealgebras/type_a.py:109-114 | SymPy's count falls short of the number of generators of su(n+1) by 2n+1 |
| TypeA.Basis | sympy/liealgebras/type_a.py:109-114 | the generators of su(n+1) are the rank plus one per root |
| TypeA.Decimal | sympy/liealgebras/type_a.py:116-121 | str(n) is nonempty, and a single digit for n < 10 |
| TypeA.BasicRootOf | sympy/liealgebras/type_a.py:34-46 | no contract of its own: the vector `basic_root` builds; BasicRoot (the in-place method), BasicRootDefined, BasicRootEntries, BasicRootSum and BasicRootInjective state it |
| TypeA.SimpleRoot | sympy/liealgebras/type_a.py:48-61 | no contract of its own: basic_root(i-1, i); SimpleRootShape, SimpleRootZeroWrapsAround, SimpleRootOfA4 and CartanFromSimpleRoots state it |
| TypeA.HighestRoot | sympy/liealgebras/type_a.py:63-68 | no contract of its own: basic_root(0, n); HighestRootShape and HighestRootIsSumOfSimpleRoots state it |
| TypeA.LieAlgebra | sympy/liealgebras/type_a.py:116-121 | no contract of its own: "su(" + str(n+1) + ")"; LieAlgebraNamesDimension and LieAlgebraOfA4 state it |
| TypeA.NodesLine | sympy/liealgebras/type_a.py:125 | no contract of its own: the nodes joined by "---"; NodesLineShape states it |
| TypeA.LabelsLine | sympy/liealgebras/type_a.py:126 | no contract of its own: the labels joined by three spaces; LabelsUnderNodes and LabelsAvoidNewline state it |
| TypeA.DynkinDiagram | sympy/liealgebras/type_a.py:123-127 | no contract of its own: the two lines joined by a newline; TwoLines and DynkinDiagramLines state it |
| TypeALemmas.BasicRootDefined | sympy/liealgebras/type_a.py:42-46 | basic_root(i, j) exists exactly when both i and j are valid indices of a list of length n+1 |
| TypeALemmas.BasicRootEntries | sympy/liealgebras/type_a.py:34-46 | the vector has length n+1, -1 at j, 1 at i unless i and j name the same cell, and 0 elsewhere |
| TypeALemmas.BasicRootSum | sympy/liealgebras/type_a.py:34-46 | the coordinates of e_i - e_j sum to 0, or to -1 when i and j name the same cell |
| TypeALemmas.BasicRootInjective | sympy/liealgebras/type_a.py:34-46 | distinct pairs of distinct indices give distinct roots |
| TypeALemmas.SimpleRootShape | sympy/liealgebras/type_a.py:48-61 | simple_root(i) exists for -n <= i <= n, and for 1 <= i <= n it is e_(i-1) - e_i |
| TypeALemmas.SimpleRootZeroWrapsAround | sympy/liealgebras/type_a.py:48-61 | simple_root(0) wraps around to e_n - e_0 |
| TypeALemmas.SimpleRootOfA4 | sympy/liealgebras/type_a.py:53-57 | in A4, simple_root(1) = [1, -1, 0, 0, 0] |
| TypeALemmas.HighestRootShape | sympy/liealgebras/type_a.py:63-68 | the highest root is e_0 - e_n, and its coordinates sum to 0 |
| TypeALemmas.HighestRootIsSumOfSimpleRoots | sympy/liealgebras/type_a.py:63-68 | the highest root is the sum of all n simple roots |
| TypeALemmas.SimpleRootsTelescope | sympy/liealgebras/type_a.py:48-61 | alpha_1 + ... + alpha_k = e_0 - e_k |
| TypeALemmas.TwoPointDot | sympy/liealgebras/type_a.py:34-46 | <e_a - e_b, e_c - e_d> = [a=c] - [a=d] - [b=c] + [b=d] |
| TypeALemmas.CartanFromSimpleRoots | sympy/liealgebras/type_a.py:79-83 | entry (i, j) of the Cartan matrix is the inner product <alpha_i, alpha_j> of the simple roots |
| TypeALemmas.CartanSymmetric | sympy/liealgebras/type_a.py:77-107 | the Cartan matrix of A_n is symmetric |
| TypeALemmas.CartanMatrixOfA4 | sympy/liealgebras/type_a.py:86-94 | the A4 matrix is the one shown in the docstring |
| TypeALemmas.RootPairsMembers | sympy/liealgebras/type_a.py:70-75 | (i, j) is listed exactly when i and j are distinct indices below m |
| TypeALemmas.RootsCountsRootVectors | sympy/liealgebras/type_a.py:70-75 | roots() counts the ordered pairs of distinct indices of V, and each pair gives a root e_i - e_j |
| TypeALemmas.BasisIsRankPlusRoots | sympy/liealgebras/type_a.py:109-114 | the corrected count is the rank plus the number of roots |
| TypeALemmas.BasisAsWrittenMissesGenerators | sympy/liealgebras/type_a.py:109-114 | SymPy's count falls short of rank plus roots by 2n+1; for A1 it gives 0, not 3 |
| TypeALemmas.DecimalRoundTrip | sympy/liealgebras/type_a.py:116-121 | str(n) consists of digits that read back as n |
| TypeALemmas.LieAlgebraNamesDimension | sympy/liealgebras/type_a.py:116-121 | lie_algebra() is "su(" + a decimal that reads back as the dimension of V + ")" |
| TypeALemmas.LieAlgebraOfA4 | sympy/liealgebras/type_a.py:116-121 | A4 gives "su(5)" |
| TypeALemmas.JoinOfSingles | sympy/liealgebras/type_a.py:123-127 | joining one-character parts with a three-character separator puts part p at 4p and the separator between |
| TypeALemmas.JoinAvoids | sympy/liealgebras/type_a.py:123-127 | a character absent from the parts and the separator is absent from the join |
| TypeALemmas.NodesLineShape | sympy/liealgebras/type_a.py:125 | the first line has 4n-3 characters, a "0" at every multiple of 4 and "-" elsewhere |
| TypeALemmas.LabelsUnderNodes | sympy/liealgebras/type_a.py:126 | up to A9, label p+1 sits under node p, with spaces between |
| TypeALemmas.LabelsAvoidNewline | sympy/liealgebras/type_a.py:126 | the label line contains no newline |
| TypeALemmas.TwoLines | sympy/liealgebras/type_a.py:125-126 | two newline-free lines joined by a newline have exactly one newline |
| TypeALemmas.DynkinDiagramLines | sympy/liealgebras/type_a.py:123-127 | the diagram is the nodes line, then its only newline, then the labels |

## Left out

- The hyperbolic classes' other members are not modelled: the rewrites, `as_real_imag`, the expansions, the leading terms, `is_real`, `is_bounded`, conjugation and `_sage_`. Nor are `cacheit` or `sympify`.
- Circular functions, log, sqrt and arithmetic are uninterpreted. No algebraic simplification happens: 1 - x**2 stays as built, and (-a)**2 is not a**2.
- Bernoulli numbers are a parameter `bernoulli: nat -> real` of the Taylor functions. The model does not compute them.
- The canonical forms are syntactic. `Negate` stands in for SymPy's unary minus and `_coeff_isneg`. `as_coefficient(I)` is recognised only on the explicit c·I node.
- `NumberSentinel` gives coth(0) = 0, the value returned at line 500; the model keeps the sentinel rows exactly as written and claims nothing about their mathematical values.
- HyperbolicTaylorLemmas.SinhRecurrence and its partners assume the caller's protocol: the terms passed are the function's own earlier terms. With any other terms the recurrence gives whatever the arithmetic gives. The model keeps that arithmetic but proves nothing about it.
- Where SymPy would divide by n(n-1) = 0 (sinh at n = 1, or cosh at n = 0 with more than two previous terms), the term is `Undefined`.
- cosh defines no `inverse`. `Inverse(Cosh)` is None, which stands for the base class's behaviour, an error outside this model.
- `Eval` and `Build` keep SymPy's acosh parity rule, so `FDiff` and every lemma about `Build` see acosh(-x) = -acosh(x). The corrected rule lives in `AcoshCorrected` only, and evaluates only negated real literals, because which of its two cases applies depends on where a symbolic argument lies.
- HyperbolicCalculus.InverseIsInvolution excludes acosh, because its inverse cosh has no inverse.
- The `Matrix` built by `2 * eye(n)` is an `array2<int>` in the model. Matrix printing and the sympy matrix API are not part of this model.
- `Factorial`, `RisingFactorial` and the recurrence factor are exact rationals. SymPy's integers and Rationals are exact too, so nothing is lost.
- Cross-identity results such as sqrt(x - 1)·sqrt(x + 1) are uninterpreted nodes. The model does not prove them equal to anything.
- TypeA's `CartanType("A4")` string constructor and its base class `Standard_Cartan` are not part of this model. `Init` models the rank check only.
- TypeALemmas.LabelsUnderNodes holds up to A9 only. From A10 on the labels have two digits and drift right of their nodes, exactly as SymPy prints them.

## Findings

| source | as written | input that shows it | evidently intended | confidence | as-written member | corrected member |
|---|---|---|---|---|---|---|
| sympy/functions/elementary/hyperbolic.py:753-755 | acosh of a negated argument returns -acosh(-arg), as for an odd function | acosh(-2) becomes -acosh(2), whose imaginary part is 0, where the principal value is acosh(2) + π·I; applied to the table's acosh(1/2) = π·I/3 the rule would give acosh(-1/2) = -π·I/3, where the table says 2π·I/3 | the reflection of the principal branch log(z + sqrt(z+1)·sqrt(z-1)) that the table follows: acosh(-x) = π·I - acosh(x) for real 0 < x <= 1, which every real key pair of the table and the sentinels ±1 obey, and acosh(-x) = acosh(x) + π·I for real x > 1; the imaginary pair ±I does not follow the first rule | high, not executed | HyperbolicEvalLemmas.AcoshAsWrittenContradictsTable | HyperbolicEvalLemmas.AcoshReflection |
| sympy/liealgebras/type_a.py:109-114 | basis() returns n**2 - 1 | A1 = su(2): basis() gives 0, but su(2) has 3 generators | (n+1)**2 - 1, the rank plus the number of roots | high, not executed | TypeALemmas.BasisAsWrittenMissesGenerators | TypeALemmas.BasisIsRankPlusRoots |
