/** Dense arrays as the aggregation functions see them: an n-by-f data matrix of
    exact reals, its columns, element-wise arithmetic, row norms, and fancy
    indexing `m[partition]`.  Floating point is not modelled. */
module Arrays {

  type Matrix = seq<seq<real>>

  /** The number of columns f of a matrix (taken from its first row). */
  function Width(m: Matrix): nat {
    if |m| == 0 then 0 else |m[0]|
  }

  /** Every row has the same length, as in a two-dimensional numpy array. */
  predicate Rectangular(m: Matrix) {
    forall i | 0 <= i < |m| :: |m[i]| == Width(m)
  }

  predicate SameShape(a: Matrix, b: Matrix) {
    |a| == |b| && forall i | 0 <= i < |a| :: |a[i]| == |b[i]|
  }

  /** Column j of m, `m[:, j]`. */
  function Column(m: Matrix, j: nat): seq<real>
    requires Rectangular(m) && j < Width(m)
  {
    seq(|m|, i requires 0 <= i < |m| => m[i][j])
  }

  predicate NonNegative(xs: seq<real>) {
    forall i | 0 <= i < |xs| :: 0.0 <= xs[i]
  }

  /** Dot product of two vectors of equal length. */
  function Dot(u: seq<real>, v: seq<real>): real
    requires |u| == |v|
  {
    if u == [] then 0.0 else u[0] * v[0] + Dot(u[1..], v[1..])
  }

  /** `m[partition]`: row i of the result is row p[i] of m. */
  function Broadcast<T>(m: seq<T>, p: seq<int>): (r: seq<T>)
    requires forall i | 0 <= i < |p| :: 0 <= p[i] < |m|
    ensures |r| == |p|
  {
    seq(|p|, i requires 0 <= i < |p| => m[p[i]])
  }

  function Square(x: real): real {
    x * x
  }

  /** `(a - b) ** 2`, element by element. */
  function SquaredDifference(a: Matrix, b: Matrix): (r: Matrix)
    requires SameShape(a, b)
    ensures SameShape(r, a)
    ensures Rectangular(a) ==> Rectangular(r) && Width(r) == Width(a)
  {
    seq(|a|, i requires 0 <= i < |a| =>
      seq(|a[i]|, j requires 0 <= j < |a[i]| => Square(a[i][j] - b[i][j])))
  }

  /** What the model needs of the library's square root: it is 0 at 0 and never
      negative on a non-negative argument.  Nothing else about it is assumed. */
  ghost predicate SqrtContract(sqrt: real -> real) {
    sqrt(0.0) == 0.0 && forall x :: 0.0 <= x ==> 0.0 <= sqrt(x)
  }

  function SumOfSquares(v: seq<real>): (s: real)
    ensures 0.0 <= s
    ensures (forall i | 0 <= i < |v| :: v[i] == 0.0) ==> s == 0.0
  {
    if v == [] then 0.0 else v[0] * v[0] + SumOfSquares(v[1..])
  }

  /** `np.linalg.norm(v)`: the Euclidean length of a row, never negative and zero
      for the zero row. */
  function Norm(v: seq<real>, sqrt: real -> real): (r: real)
    requires SqrtContract(sqrt)
    ensures 0.0 <= r
    ensures (forall i | 0 <= i < |v| :: v[i] == 0.0) ==> r == 0.0
  {
    sqrt(SumOfSquares(v))
  }

  /** `np.linalg.norm(data, axis=1)`. */
  function RowNorms(data: Matrix, sqrt: real -> real): (r: seq<real>)
    requires SqrtContract(sqrt)
    ensures |r| == |data| && NonNegative(r)
    ensures forall i | 0 <= i < |r| :: r[i] == Norm(data[i], sqrt)
  {
    seq(|data|, i requires 0 <= i < |data| => Norm(data[i], sqrt))
  }
}
