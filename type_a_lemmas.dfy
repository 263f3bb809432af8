/** What the A-series data promises: root shapes, the Cartan matrix from the simple roots, the counts and the strings. */
module TypeALemmas {
  import opened Wrappers
  import opened TypeA

  // ---------------------------------------------------------------------------
  // Basic roots

  /** basic_root(i, j) exists exactly when both indices are valid Python indices of a list of length n+1. */
  lemma BasicRootDefined(t: TypeA, i: int, j: int)
    ensures BasicRootOf(t.n, i, j).Some? <==> -(t.n + 1) <= i <= t.n && -(t.n + 1) <= j <= t.n
  {
  }

  /** The entries of basic_root(i, j): -1 at j, 1 at i unless i and j name the same cell, 0 elsewhere. */
  lemma BasicRootEntries(t: TypeA, i: int, j: int)
    requires BasicRootOf(t.n, i, j).Some?
    ensures var v := BasicRootOf(t.n, i, j).value;
      var a := PyIndex(t.n + 1, i).value;
      var b := PyIndex(t.n + 1, j).value;
      |v| == Dimension(t)
      && v[b] == -1
      && (a != b ==> v[a] == 1)
      && forall p :: 0 <= p < |v| && p != a && p != b ==> v[p] == 0
  {
  }

  /** The first k entries of TwoPoint(m, a, b) sum to [a < k] - [b < k] when a != b. */
  lemma {:induction false} TwoPointPrefixSum(m: nat, a: nat, b: nat, k: nat)
    requires a < m && b < m && k <= m
    ensures Sum(TwoPoint(m, a, b)[..k])
         == (if a == b then 0 else if a < k then 1 else 0) - (if b < k then 1 else 0)
  {
    if k > 0 {
      var v := TwoPoint(m, a, b);
      assert v[..k][..k - 1] == v[..k - 1];
      TwoPointPrefixSum(m, a, b, k - 1);
    }
  }

  /** A root e_i - e_j has coordinates summing to 0; when i and j are the same cell the sum is -1. */
  lemma BasicRootSum(t: TypeA, i: int, j: int)
    requires BasicRootOf(t.n, i, j).Some?
    ensures Sum(BasicRootOf(t.n, i, j).value)
         == if PyIndex(t.n + 1, i) == PyIndex(t.n + 1, j) then -1 else 0
  {
    var a := PyIndex(t.n + 1, i).value;
    var b := PyIndex(t.n + 1, j).value;
    var v := TwoPoint(t.n + 1, a, b);
    TwoPointPrefixSum(t.n + 1, a, b, t.n + 1);
    assert v[..t.n + 1] == v;
  }

  /** Distinct index pairs give distinct roots. */
  lemma BasicRootInjective(t: TypeA, a: nat, b: nat, c: nat, d: nat)
    requires a <= t.n && b <= t.n && c <= t.n && d <= t.n && a != b && c != d
    requires BasicRootOf(t.n, a, b) == BasicRootOf(t.n, c, d)
    ensures a == c && b == d
  {
    var v := BasicRootOf(t.n, a, b).value;
    assert v[a] == 1 && v[b] == -1;
  }

  // ---------------------------------------------------------------------------
  // Simple and highest roots

  /** simple_root(i) exists for -n <= i <= n; for 1 <= i <= n it is e_(i-1) - e_i. */
  lemma SimpleRootShape(t: TypeA, i: int)
    ensures SimpleRoot(t, i).Some? <==> -(t.n as int) <= i <= t.n
    ensures 1 <= i <= t.n ==> SimpleRoot(t, i) == Some(TwoPoint(t.n + 1, i - 1, i))
  {
  }

  /** simple_root(0) wraps around: basic_root(-1, 0) puts the 1 in the last cell. */
  lemma SimpleRootZeroWrapsAround(t: TypeA)
    ensures SimpleRoot(t, 0) == Some(TwoPoint(t.n + 1, t.n, 0))
  {
  }

  /** The example of A4: simple_root(1) is [1, -1, 0, 0, 0]. */
  lemma SimpleRootOfA4()
    ensures SimpleRoot(TypeA(4), 1) == Some([1, -1, 0, 0, 0])
  {
    var v := TwoPoint(5, 0, 1);
    assert SimpleRoot(TypeA(4), 1) == Some(v);
    assert v == [1, -1, 0, 0, 0] by {
      assert |v| == 5;
      assert v[0] == 1 && v[1] == -1 && v[2] == 0 && v[3] == 0 && v[4] == 0;
    }
  }

  /** highest_root() is e_0 - e_n: 1 first, -1 last, 0 between. */
  lemma HighestRootShape(t: TypeA)
    ensures HighestRoot(t).Some?
    ensures var v := HighestRoot(t).value;
      |v| == Dimension(t) && v[0] == 1 && v[t.n] == -1
      && (forall p :: 0 < p < t.n ==> v[p] == 0)
      && Sum(v) == 0
  {
    BasicRootSum(t, 0, t.n);
  }

  /** Coordinate-wise sum of two vectors of one length. */
  function VecAdd(u: seq<int>, v: seq<int>): (w: seq<int>)
    requires |u| == |v|
    ensures |w| == |u|
  {
    seq(|u|, p requires 0 <= p < |u| => u[p] + v[p])
  }

  /** alpha_1 + ... + alpha_k: the sum of the first k simple roots of A_n, as vectors of length n+1. */
  function SimpleRootSum(n: Rank, k: nat): (s: seq<int>)
    requires k <= n
    ensures |s| == n + 1
  {
    if k == 0 then seq(n + 1, _ => 0)
    else VecAdd(SimpleRootSum(n, k - 1), TwoPoint(n + 1, k - 1, k))
  }

  /** The simple roots telescope: alpha_1 + ... + alpha_k = e_0 - e_k. */
  lemma {:induction false} SimpleRootsTelescope(n: Rank, k: nat)
    requires 1 <= k <= n
    ensures SimpleRootSum(n, k) == TwoPoint(n + 1, 0, k)
  {
    if k > 1 {
      SimpleRootsTelescope(n, k - 1);
    }
  }

  /** The highest root is the sum of all the simple roots. */
  lemma HighestRootIsSumOfSimpleRoots(t: TypeA)
    ensures HighestRoot(t) == Some(SimpleRootSum(t.n, t.n))
  {
    SimpleRootsTelescope(t.n, t.n);
  }

  // ---------------------------------------------------------------------------
  // The Cartan matrix from the simple roots

  /** The inner product of the first k coordinates of e_a - e_b and e_c - e_d. */
  lemma {:induction false} TwoPointPrefixDot(m: nat, a: nat, b: nat, c: nat, d: nat, k: nat)
    requires a < m && b < m && c < m && d < m && a != b && c != d && k <= m
    ensures Dot(TwoPoint(m, a, b)[..k], TwoPoint(m, c, d)[..k])
         == (if a < k then Delta(a, c) - Delta(a, d) else 0)
          - (if b < k then Delta(b, c) - Delta(b, d) else 0)
  {
    if k > 0 {
      var u := TwoPoint(m, a, b);
      var v := TwoPoint(m, c, d);
      assert u[..k][..k - 1] == u[..k - 1];
      assert v[..k][..k - 1] == v[..k - 1];
      TwoPointPrefixDot(m, a, b, c, d, k - 1);
    }
  }

  /** <e_a - e_b, e_c - e_d> = [a=c] - [a=d] - [b=c] + [b=d]. */
  lemma TwoPointDot(m: nat, a: nat, b: nat, c: nat, d: nat)
    requires a < m && b < m && c < m && d < m && a != b && c != d
    ensures Dot(TwoPoint(m, a, b), TwoPoint(m, c, d)) == Delta(a, c) - Delta(a, d) - Delta(b, c) + Delta(b, d)
  {
    TwoPointPrefixDot(m, a, b, c, d, m);
    assert TwoPoint(m, a, b)[..m] == TwoPoint(m, a, b);
    assert TwoPoint(m, c, d)[..m] == TwoPoint(m, c, d);
  }

  /** Entry (i-1, j-1) of the Cartan matrix is the inner product of the simple roots alpha_i and alpha_j. */
  lemma CartanFromSimpleRoots(t: TypeA, i: int, j: int)
    requires 1 <= i <= t.n && 1 <= j <= t.n
    ensures SimpleRoot(t, i).Some? && SimpleRoot(t, j).Some?
    ensures Dot(SimpleRoot(t, i).value, SimpleRoot(t, j).value) == CartanEntry(i - 1, j - 1)
  {
    SimpleRootShape(t, i);
    SimpleRootShape(t, j);
    TwoPointDot(t.n + 1, i - 1, i, j - 1, j);
  }

  /** The Cartan matrix of A_n is symmetric. */
  lemma CartanSymmetric(i: int, j: int)
    ensures CartanEntry(i, j) == CartanEntry(j, i)
  {
  }

  /** The Cartan matrix of A_n as rows. */
  function CartanRows(n: nat): seq<seq<int>> {
    seq(n, i => seq(n, j => CartanEntry(i, j)))
  }

  /** The example of A4. */
  lemma CartanMatrixOfA4()
    ensures CartanRows(4) == [[2, -1, 0, 0], [-1, 2, -1, 0], [0, -1, 2, -1], [0, 0, -1, 2]]
  {
    assert CartanRows(4)[0] == [2, -1, 0, 0];
    assert CartanRows(4)[1] == [-1, 2, -1, 0];
    assert CartanRows(4)[2] == [0, -1, 2, -1];
    assert CartanRows(4)[3] == [0, 0, -1, 2];
  }

  // ---------------------------------------------------------------------------
  // Counting roots and generators

  /** RootPairs(m) holds exactly the ordered pairs of distinct indices below m. */
  lemma {:induction false} RootPairsMembers(m: nat, i: nat, j: nat)
    ensures (i, j) in RootPairs(m) <==> i < m && j < m && i != j
  {
    if m > 0 {
      var k := m - 1;
      RootPairsMembers(k, i, j);
      assert RootPairs(m) == RootPairs(k) + seq(k, x => (x, k)) + seq(k, y => (k, y));
      if i < m && j < m && i != j && !(i < k && j < k) {
        if j == k {
          assert seq(k, x => (x, k))[i] == (i, j);
        } else {
          assert seq(k, y => (k, y))[j] == (i, j);
        }
      }
    }
  }

  /** roots() counts the roots e_i - e_j: one for each ordered pair of distinct indices of V, each a distinct vector. */
  lemma RootsCountsRootVectors(t: TypeA)
    ensures |RootPairs(Dimension(t))| == Roots(t)
    ensures forall p :: p in RootPairs(Dimension(t)) ==>
      BasicRootOf(t.n, p.0, p.1).Some? && Sum(BasicRootOf(t.n, p.0, p.1).value) == 0
  {
    forall p | p in RootPairs(Dimension(t))
      ensures BasicRootOf(t.n, p.0, p.1).Some? && Sum(BasicRootOf(t.n, p.0, p.1).value) == 0
    {
      RootPairsMembers(Dimension(t), p.0, p.1);
      BasicRootSum(t, p.0, p.1);
    }
  }

  /** The generators of su(n+1) are the n of the Cartan subalgebra plus one per root. */
  lemma BasisIsRankPlusRoots(t: TypeA)
    ensures Basis(t) == t.n + Roots(t)
  {
  }

  /** basis() as written falls short of rank plus roots by 2n+1 for every n. */
  lemma BasisAsWrittenMissesGenerators(t: TypeA)
    ensures BasisAsWritten(t) == t.n + Roots(t) - (2 * t.n + 1)
    ensures BasisAsWritten(t) != Basis(t)
    ensures BasisAsWritten(TypeA(1)) == 0 && Basis(TypeA(1)) == 3
  {
  }

  // ---------------------------------------------------------------------------
  // Strings

  /** Each digit character reads back as its value. */
  lemma DigitValue(d: nat)
    requires d < 10
    ensures IsDigit(Digit(d)) && Digit(d) as int - '0' as int == d
  {
    var ds := "0123456789";
    assert forall k | 0 <= k < 10 :: ds[k] as int == '0' as int + k;
  }

  /** The decimal digits of n read back give n. */
  lemma {:induction false} DecimalRoundTrip(n: nat)
    ensures ParseDecimal(Decimal(n)) == n
    ensures forall q :: 0 <= q < |Decimal(n)| ==> IsDigit(Decimal(n)[q])
  {
    var s := Decimal(n);
    DigitValue(n % 10);
    if n >= 10 {
      DecimalRoundTrip(n / 10);
      assert s[..|s| - 1] == Decimal(n / 10);
      assert ParseDecimal(s) == ParseDecimal(Decimal(n / 10)) * 10 + n % 10;
    }
  }

  /** lie_algebra() is "su(" + the dimension of V + ")". */
  lemma LieAlgebraNamesDimension(t: TypeA)
    ensures var s := LieAlgebra(t);
      |s| >= 5 && s[..3] == "su(" && s[|s| - 1] == ')'
      && ParseDecimal(s[3..|s| - 1]) == Dimension(t)
  {
    var s := LieAlgebra(t);
    DecimalRoundTrip(t.n + 1);
    assert s[3..|s| - 1] == Decimal(t.n + 1);
  }

  /** The example of A4: su(5). */
  lemma LieAlgebraOfA4()
    ensures LieAlgebra(TypeA(4)) == "su(5)"
  {
  }

  /** Joining one-character parts with a three-character separator puts part p at 4p and the separator between. */
  lemma {:induction false} JoinOfSingles(parts: seq<string>, sep: string)
    requires 1 <= |parts| && |sep| == 3
    requires forall p :: 0 <= p < |parts| ==> |parts[p]| == 1
    ensures |Join(parts, sep)| == 4 * |parts| - 3
    ensures forall q :: 0 <= q < 4 * |parts| - 3 ==>
      Join(parts, sep)[q] == if q % 4 == 0 then parts[q / 4][0] else sep[q % 4 - 1]
  {
    if |parts| > 1 {
      var init := parts[..|parts| - 1];
      JoinOfSingles(init, sep);
      assert Join(parts, sep) == Join(init, sep) + sep + parts[|parts| - 1];
    }
  }

  /** A character found neither in the parts nor in the separator is not in the joined string. */
  lemma {:induction false} JoinAvoids(parts: seq<string>, sep: string, c: char)
    requires c !in sep
    requires forall p :: 0 <= p < |parts| ==> c !in parts[p]
    ensures c !in Join(parts, sep)
  {
    if |parts| > 1 {
      JoinAvoids(parts[..|parts| - 1], sep, c);
    }
  }

  /** The nodes line: a "0" every four characters, joined by dashes, 4n-3 characters in all. */
  lemma NodesLineShape(n: nat)
    requires n >= 1
    ensures |NodesLine(n)| == 4 * n - 3
    ensures forall q :: 0 <= q < 4 * n - 3 ==> NodesLine(n)[q] == if q % 4 == 0 then '0' else '-'
  {
    JoinOfSingles(seq(n, _ => "0"), "---");
  }

  /** Up to A9 each label sits under its node: the labels line has digit p+1 at 4p and spaces between. */
  lemma LabelsUnderNodes(n: nat)
    requires 1 <= n <= 9
    ensures |LabelsLine(n)| == 4 * n - 3
    ensures forall q :: 0 <= q < 4 * n - 3 ==>
      LabelsLine(n)[q] == if q % 4 == 0 then Digit(q / 4 + 1) else ' '
  {
    JoinOfSingles(seq(n, i requires 0 <= i => Decimal(i + 1)), "   ");
  }

  /** No label contains a newline. */
  lemma LabelsAvoidNewline(n: nat)
    ensures '\n' !in LabelsLine(n)
  {
    var parts := seq(n, i requires 0 <= i => Decimal(i + 1));
    forall p | 0 <= p < |parts|
      ensures '\n' !in parts[p]
    {
      DecimalRoundTrip(p + 1);
    }
    JoinAvoids(parts, "   ", '\n');
  }

  /** Two newline-free lines joined by one newline: the newline is the only one and sits at |a|. */
  lemma TwoLines(a: string, b: string)
    requires '\n' !in a && '\n' !in b
    ensures forall q :: 0 <= q < |a + "\n" + b| ==> ((a + "\n" + b)[q] == '\n' <==> q == |a|)
  {
    forall q | 0 <= q < |a + "\n" + b|
      ensures (a + "\n" + b)[q] == '\n' <==> q == |a|
    {
      if q < |a| {
        assert (a + "\n" + b)[q] == a[q];
      } else if q > |a| {
        assert (a + "\n" + b)[q] == b[q - |a| - 1];
      }
    }
  }

  /** The diagram has one newline, right after the 4n-3 characters of the nodes line. */
  lemma DynkinDiagramLines(t: TypeA)
    ensures var d := DynkinDiagram(t);
      |d| > 4 * t.n - 3
      && d[..4 * t.n - 2] == NodesLine(t.n) + "\n"
      && forall q :: 0 <= q < |d| ==> (d[q] == '\n' <==> q == 4 * t.n - 3)
  {
    var n := t.n;
    NodesLineShape(n);
    JoinAvoids(seq(n, _ => "0"), "---", '\n');
    LabelsAvoidNewline(n);
    TwoLines(NodesLine(n), LabelsLine(n));
  }
}
