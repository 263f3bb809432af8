/**
 * The A series of simple Lie algebras, A_n = su(n+1): its rank, the roots
 * e_i - e_j of the (n+1)-dimensional space, the tridiagonal Cartan matrix,
 * the counts of roots and generators, and the two strings naming the algebra
 * and drawing its Dynkin diagram.
 */
module TypeA {
  import opened Wrappers

  /** The rank n of A_n; the constructor refuses anything below 1. */
  type Rank = n: int | n >= 1 witness 1

  datatype TypeA = TypeA(n: Rank)

  /** `TypeA(n)`: the construction fails its assertion when n < 1. */
  function Init(n: int): (r: Option<TypeA>)
    ensures r.Some? <==> n >= 1
    ensures r.Some? ==> r.value.n == n
  {
    if n >= 1 then Some(TypeA(n)) else None
  }

  /** `dimension()`: the dimension of the space V the roots live in. */
  function Dimension(t: TypeA): (d: int)
    ensures forall i, j :: BasicRootOf(t.n, i, j).Some? ==> |BasicRootOf(t.n, i, j).value| == d
    ensures BasicRootOf(t.n, 0, 1).Some?
  {
    t.n + 1
  }

  // ---------------------------------------------------------------------------
  // Roots

  /** Python list indexing on a list of length len: negative indices count from the end. */
  function PyIndex(len: nat, idx: int): (r: Option<nat>)
    ensures r.Some? <==> -(len as int) <= idx < len
    ensures r.Some? ==> r.value < len && (r.value == idx || r.value == idx + len)
  {
    if 0 <= idx < len then Some(idx)
    else if -(len as int) <= idx < 0 then Some(idx + len)
    else None
  }

  /** The vector of length m with 1 at a and -1 at b (the -1 wins when a == b). */
  function TwoPoint(m: nat, a: nat, b: nat): seq<int> {
    seq(m, p => if p == b then -1 else if p == a then 1 else 0)
  }

  /** What `basic_root(i, j)` returns: None where the list indexing raises. */
  function BasicRootOf(n: Rank, i: int, j: int): Option<seq<int>> {
    match (PyIndex(n + 1, i), PyIndex(n + 1, j))
    case (Some(a), Some(b)) => Some(TwoPoint(n + 1, a, b))
    case _ => None
  }

  /** `basic_root(i, j)`: a zero list of length n+1 with root[i] = 1, then root[j] = -1. */
  method BasicRoot(t: TypeA, i: int, j: int) returns (r: Option<seq<int>>)
    ensures r == BasicRootOf(t.n, i, j)
  {
    var len := t.n + 1;
    var root := new int[len](_ => 0);
    var a := PyIndex(len, i);
    if a.None? {
      return None;
    }
    root[a.value] := 1;
    var b := PyIndex(len, j);
    if b.None? {
      return None;
    }
    root[b.value] := -1;
    r := Some(root[..]);
    assert root[..] == TwoPoint(len, a.value, b.value);
  }

  /** `simple_root(i)` = basic_root(i-1, i). */
  function SimpleRoot(t: TypeA, i: int): Option<seq<int>> {
    BasicRootOf(t.n, i - 1, i)
  }

  /** `highest_root()` = basic_root(0, n). */
  function HighestRoot(t: TypeA): Option<seq<int>> {
    BasicRootOf(t.n, 0, t.n)
  }

  /** `roots()`: the number of roots of A_n, one per ordered pair of distinct indices of V. */
  function Roots(t: TypeA): (r: int)
    ensures r == |RootPairs(Dimension(t))|
  {
    var n := t.n;
    n * (n + 1)
  }

  function Sum(s: seq<int>): int {
    if |s| == 0 then 0 else Sum(s[..|s| - 1]) + s[|s| - 1]
  }

  /** The standard inner product of two vectors of the same length. */
  function Dot(u: seq<int>, v: seq<int>): int
    requires |u| == |v|
  {
    if |u| == 0 then 0 else Dot(u[..|u| - 1], v[..|v| - 1]) + u[|u| - 1] * v[|v| - 1]
  }

  function Delta(a: int, b: int): int {
    if a == b then 1 else 0
  }

  /** Every ordered pair (i, j) of distinct indices below m, the indices of the roots e_i - e_j. */
  function RootPairs(m: nat): (s: seq<(nat, nat)>)
    ensures |s| == m * (m - 1)
  {
    if m == 0 then []
    else
      var k := m - 1;
      RootPairs(k) + seq(k, i => (i, k)) + seq(k, j => (k, j))
  }

  // ---------------------------------------------------------------------------
  // The Cartan matrix

  /** The Cartan matrix entry of A_n: 2 on the diagonal, -1 next to it, 0 elsewhere. */
  function CartanEntry(i: int, j: int): int {
    if i == j then 2 else if i - j == 1 || j - i == 1 then -1 else 0
  }

  /**
   * `cartan_matrix()`: 2*eye(n), then the loop sets the two neighbours of the
   * diagonal in rows 1..n-2, then rows 0 and n-1 get their one neighbour.
   * For n = 1 the write to m[0, 1] is out of range, so there is no result.
   */
  method CartanMatrix(t: TypeA) returns (r: Option<array2<int>>)
    ensures r.Some? <==> t.n >= 2
    ensures r.Some? ==> fresh(r.value) && r.value.Length0 == t.n && r.value.Length1 == t.n
    ensures r.Some? ==> forall i, j :: 0 <= i < t.n && 0 <= j < t.n ==> r.value[i, j] == CartanEntry(i, j)
  {
    var n: int := t.n;
    var m := new int[n, n]((i, j) => if i == j then 2 else 0);
    var i := 1;
    while i < n - 1
      invariant 1 <= i && (n >= 2 ==> i <= n - 1)
      invariant forall x, y :: 0 <= x < n && 0 <= y < n ==>
        m[x, y] == (if x == y then 2 else if 1 <= x < i && (y == x + 1 || y == x - 1) then -1 else 0)
    {
      m[i, i + 1] := -1;
      m[i, i - 1] := -1;
      i := i + 1;
    }
    if n < 2 {
      return None;
    }
    m[0, 1] := -1;
    m[n - 1, n - 2] := -1;
    return Some(m);
  }

  // ---------------------------------------------------------------------------
  // Counts of generators

  /** `basis()` as written: n^2 - 1, which misses 2n+1 of the generators. */
  function BasisAsWritten(t: TypeA): (r: int)
    ensures r == Basis(t) - (2 * t.n + 1)
  {
    var n := t.n;
    n * n - 1
  }

  /** The number of independent generators of su(n+1): (n+1)^2 - 1. */
  function Basis(t: TypeA): (r: int)
    ensures r == t.n + Roots(t)
  {
    var n := t.n;
    (n + 1) * (n + 1) - 1
  }

  // ---------------------------------------------------------------------------
  // Strings

  function Digit(d: nat): char
    requires d < 10
  {
    "0123456789"[d]
  }

  predicate IsDigit(c: char) {
    '0' <= c <= '9'
  }

  /** `str(n)` for a natural number: its decimal digits, most significant first. */
  function Decimal(n: nat): (s: string)
    ensures 1 <= |s|
    ensures n < 10 ==> s == [Digit(n)]
  {
    if n < 10 then [Digit(n)] else Decimal(n / 10) + [Digit(n % 10)]
  }

  /** The value of a string of decimal digits. */
  function ParseDecimal(s: string): int {
    if |s| == 0 then 0 else ParseDecimal(s[..|s| - 1]) * 10 + (s[|s| - 1] as int - '0' as int)
  }

  /** `lie_algebra()`: the compact real form su(n+1). */
  function LieAlgebra(t: TypeA): string {
    "su(" + Decimal(t.n + 1) + ")"
  }

  /** `sep.join(parts)`. */
  function Join(parts: seq<string>, sep: string): string {
    if |parts| == 0 then ""
    else if |parts| == 1 then parts[0]
    else Join(parts[..|parts| - 1], sep) + sep + parts[|parts| - 1]
  }

  /** The first line of the diagram: n nodes "0" joined by "---". */
  function NodesLine(n: nat): string {
    Join(seq(n, _ => "0"), "---")
  }

  /** The second line of the diagram: the labels 1..n joined by three spaces. */
  function LabelsLine(n: nat): string {
    Join(seq(n, i requires 0 <= i => Decimal(i + 1)), "   ")
  }

  /** `dynkin_diagram()`: the nodes line, a newline, the labels line. */
  function DynkinDiagram(t: TypeA): string {
    NodesLine(t.n) + "\n" + LabelsLine(t.n)
  }
}
