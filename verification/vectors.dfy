/** Exact real vectors and matrices, the arithmetic of the power iteration:
    a rank vector is a row vector, and one step multiplies it by the
    transition matrix on the right. */
module Vectors {

  type Vector = seq<real>
  type Matrix = seq<seq<real>>

  /** Sum of the components of `v`. */
  function Sum(v: Vector): real {
    if |v| == 0 then 0.0 else Sum(v[..|v| - 1]) + v[|v| - 1]
  }

  /** Inner product of two vectors of equal length. */
  function Dot(x: Vector, y: Vector): real
    requires |x| == |y|
  {
    if |x| == 0 then 0.0
    else Dot(x[..|x| - 1], y[..|y| - 1]) + x[|x| - 1] * y[|y| - 1]
  }

  /** `n` copies of `c`. */
  function Constant(n: nat, c: real): Vector {
    seq(n, _ => c)
  }

  /** The uniform distribution over `n` components. */
  function Uniform(n: nat): (v: Vector)
    requires n > 0
    ensures |v| == n
    ensures IsDistribution(v)
  {
    SumConstant(n, 1.0 / n as real);
    Constant(n, 1.0 / n as real)
  }

  /** `P` has `m` rows of `n` entries each. */
  predicate IsRect(P: Matrix, m: nat, n: nat) {
    |P| == m && forall i :: 0 <= i < m ==> |P[i]| == n
  }

  predicate IsSquare(P: Matrix, n: nat) {
    IsRect(P, n, n)
  }

  predicate NonNegative(v: Vector) {
    forall i :: 0 <= i < |v| ==> 0.0 <= v[i]
  }

  /** A probability distribution: non-negative components summing to 1. */
  predicate IsDistribution(v: Vector) {
    NonNegative(v) && Sum(v) == 1.0
  }

  predicate RowsSumToOne(P: Matrix) {
    forall i :: 0 <= i < |P| ==> Sum(P[i]) == 1.0
  }

  predicate NonNegativeMatrix(P: Matrix) {
    forall i :: 0 <= i < |P| ==> NonNegative(P[i])
  }

  /** Column `j` of `P`. */
  function Column(P: Matrix, j: nat): Vector
    requires forall i :: 0 <= i < |P| ==> j < |P[i]|
  {
    seq(|P|, i requires 0 <= i < |P| => P[i][j])
  }

  /** The termwise products x[i] * y[i]. */
  function Terms(x: Vector, y: Vector): Vector
    requires |x| == |y|
  {
    seq(|x|, i requires 0 <= i < |x| => x[i] * y[i])
  }

  /** The row vector `x` times the |x|-by-`n` matrix `P`: component `j` is the
      inner product of `x` with column `j`. */
  function Product(x: Vector, P: Matrix, n: nat): (y: Vector)
    requires IsRect(P, |x|, n)
    ensures |y| == n
  {
    seq(n, j requires 0 <= j < n => Dot(x, Column(P, j)))
  }

  /** Component `j` of `x * P` is the sum over `i` of x[i] * P[i][j]. */
  lemma ProductIsSum(x: Vector, P: Matrix, n: nat)
    requires IsRect(P, |x|, n)
    ensures forall j :: 0 <= j < n ==> Product(x, P, n)[j] == Sum(Terms(x, Column(P, j)))
  {
    forall j | 0 <= j < n
      ensures Product(x, P, n)[j] == Sum(Terms(x, Column(P, j)))
    {
      DotIsSum(x, Column(P, j));
    }
  }

  /** The inner product is the sum of the termwise products. */
  lemma {:induction false} DotIsSum(x: Vector, y: Vector)
    requires |x| == |y|
    ensures Dot(x, y) == Sum(Terms(x, y))
  {
    if |x| > 0 {
      var k := |x| - 1;
      DotIsSum(x[..k], y[..k]);
      forall i | 0 <= i < k
        ensures Terms(x, y)[i] == Terms(x[..k], y[..k])[i]
      {
        assert x[..k][i] == x[i] && y[..k][i] == y[i];
      }
      assert Terms(x, y)[..k] == Terms(x[..k], y[..k]);
    }
  }

  /** One power-iteration step `x * P` for a square `P`. It keeps the total
      mass when the rows of `P` sum to 1, and keeps non-negativity when `P`
      is non-negative: a distribution goes to a distribution. */
  function Step(x: Vector, P: Matrix): (y: Vector)
    requires IsSquare(P, |x|)
    ensures |y| == |x|
    ensures RowsSumToOne(P) ==> Sum(y) == Sum(x)
    ensures NonNegative(x) && NonNegativeMatrix(P) ==> NonNegative(y)
  {
    ProductInvariants(x, P, |x|);
    Product(x, P, |x|)
  }

  /** The two preservation facts about `Product`, as implications. */
  lemma ProductInvariants(x: Vector, P: Matrix, n: nat)
    requires IsRect(P, |x|, n)
    ensures RowsSumToOne(P) ==> Sum(Product(x, P, n)) == Sum(x)
    ensures NonNegative(x) && NonNegativeMatrix(P) ==> NonNegative(Product(x, P, n))
  {
    if RowsSumToOne(P) {
      ProductKeepsSum(x, P, n);
    }
    if NonNegative(x) && NonNegativeMatrix(P) {
      ProductKeepsNonNegative(x, P, n);
    }
  }

  lemma {:induction false} SumConstant(n: nat, c: real)
    ensures Sum(Constant(n, c)) == n as real * c
  {
    if n > 0 {
      assert Constant(n, c)[..n - 1] == Constant(n - 1, c);
      SumConstant(n - 1, c);
    }
  }

  /** Summing is linear: if a = b + c * v componentwise, then
      Sum(a) = Sum(b) + c * Sum(v). */
  lemma {:induction false} SumPointwise(a: Vector, b: Vector, c: real, v: Vector)
    requires |a| == |b| == |v|
    requires forall j :: 0 <= j < |a| ==> a[j] == b[j] + c * v[j]
    ensures Sum(a) == Sum(b) + c * Sum(v)
  {
    if |a| > 0 {
      var k := |a| - 1;
      SumPointwise(a[..k], b[..k], c, v[..k]);
    }
  }

  /** With non-negative factors, the inner product is non-negative. */
  lemma {:induction false} DotNonNegative(x: Vector, y: Vector)
    requires |x| == |y|
    requires NonNegative(x) && NonNegative(y)
    ensures 0.0 <= Dot(x, y)
  {
    if |x| > 0 {
      var k := |x| - 1;
      DotNonNegative(x[..k], y[..k]);
      assert 0.0 <= x[k] * y[k];
    }
  }

  /** Multiplying by a matrix whose rows each sum to 1 keeps the total mass. */
  lemma {:induction false} ProductKeepsSum(x: Vector, P: Matrix, n: nat)
    requires IsRect(P, |x|, n)
    requires RowsSumToOne(P)
    ensures Sum(Product(x, P, n)) == Sum(x)
  {
    var m := |x|;
    if m == 0 {
      ProductOfNoRows(x, P, n);
    } else {
      var x', P' := x[..m - 1], P[..m - 1];
      ProductKeepsSum(x', P', n);
      ProductSumStep(x, P, n);
      assert Sum(P[m - 1]) == 1.0;
    }
  }

  /** Summing `x * P` peels off the last row: its total is that of the
      product without the last row plus x[m - 1] times the last row's sum. */
  lemma ProductSumStep(x: Vector, P: Matrix, n: nat)
    requires IsRect(P, |x|, n) && |x| > 0
    ensures Sum(Product(x, P, n)) ==
      Sum(Product(x[..|x| - 1], P[..|x| - 1], n)) + x[|x| - 1] * Sum(P[|x| - 1])
  {
    var m := |x|;
    var y, y' := Product(x, P, n), Product(x[..m - 1], P[..m - 1], n);
    forall j | 0 <= j < n
      ensures y[j] == y'[j] + x[m - 1] * P[m - 1][j]
    {
      ProductLastRow(x, P, n, j);
    }
    SumPointwise(y, y', x[m - 1], P[m - 1]);
  }

  /** With no rows, every component of `x * P` is 0. */
  lemma ProductOfNoRows(x: Vector, P: Matrix, n: nat)
    requires IsRect(P, |x|, n) && |x| == 0
    ensures Sum(Product(x, P, n)) == 0.0
  {
    forall j | 0 <= j < n
      ensures Product(x, P, n)[j] == 0.0
    {
      assert Product(x, P, n)[j] == Dot(x, Column(P, j));
    }
    assert Product(x, P, n) == Constant(n, 0.0);
    SumConstant(n, 0.0);
  }

  /** Component `j` of `x * P` is that of the product without the last row
      of `P`, plus the last row's contribution. */
  lemma ProductLastRow(x: Vector, P: Matrix, n: nat, j: nat)
    requires IsRect(P, |x|, n) && |x| > 0 && j < n
    ensures Product(x, P, n)[j] ==
      Product(x[..|x| - 1], P[..|x| - 1], n)[j] + x[|x| - 1] * P[|x| - 1][j]
  {
    var m := |x|;
    assert Product(x, P, n)[j] == Dot(x, Column(P, j));
    assert Product(x[..m - 1], P[..m - 1], n)[j] == Dot(x[..m - 1], Column(P[..m - 1], j));
    assert Column(P, j)[..m - 1] == Column(P[..m - 1], j);
  }

  /** A non-negative vector times a non-negative matrix is non-negative. */
  lemma ProductKeepsNonNegative(x: Vector, P: Matrix, n: nat)
    requires IsRect(P, |x|, n)
    requires NonNegative(x) && NonNegativeMatrix(P)
    ensures NonNegative(Product(x, P, n))
  {
    forall j | 0 <= j < n
      ensures 0.0 <= Product(x, P, n)[j]
    {
      DotNonNegative(x, Column(P, j));
    }
  }
}
