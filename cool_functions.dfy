/** The aggregation functions of h-nne: per-group means, maxima, maximum radii,
    standard deviations and normalization of the rows of a data matrix, computed
    through the 0/1 indicator matrix of a partition.  Each one is stated against
    the plain per-group definitions of module Groups. */
module CoolFunctions {
  import opened Partition
  import opened Arrays
  import opened Groups

  // ---------------------------------------------------------------- cool_mean

  /** `umat.T @ data`: entry (g, j) is the dot product of indicator column g with
      data column j, which is the sum of column j over the rows labelled g. */
  function IndicatorProduct(data: Matrix, p: seq<int>): (s: Matrix)
    requires |p| == |data| && Rectangular(data)
    ensures |s| == NumClasses(p)
    ensures forall g | 0 <= g < |s| :: |s[g]| == Width(data)
    ensures forall g: int, j: nat | 0 <= g < |s| && j < Width(data) :: s[g][j] == GroupSum(Column(data, j), p, g)
  {
    IndicatorProductIsGroupSum(data, p);
    seq(NumClasses(p), g requires 0 <= g < NumClasses(p) =>
      seq(Width(data), j requires 0 <= j < Width(data) => Dot(IndicatorColumn(p, g), Column(data, j))))
  }

  /** Multiplying by an indicator column keeps exactly the rows of its group. */
  lemma {:induction false} DotWithIndicator(p: seq<int>, xs: seq<real>, g: int)
    requires |xs| == |p|
    ensures Dot(IndicatorColumn(p, g), xs) == GroupSum(xs, p, g)
  {
    if p != [] {
      assert IndicatorColumn(p, g)[1..] == IndicatorColumn(p[1..], g);
      DotWithIndicator(p[1..], xs[1..], g);
    }
  }

  /** Column g of `umat` sums to the count `nf[g]`. */
  lemma IndicatorColumnSumsToCount(p: seq<int>, g: int)
    requires WellLabelled(p) && 0 <= g < NumClasses(p)
    ensures Sum(IndicatorColumn(p, g)) == UniqueCounts(p)[g] as real
  {
    IndicatorColumnSum(p, g);
    GroupSizeIsCount(p, g);
    CountOfClass(p, g);
  }

  lemma {:induction false} IndicatorColumnSum(p: seq<int>, g: int)
    ensures Sum(IndicatorColumn(p, g)) == GroupSize(p, g)
  {
    if p != [] {
      assert IndicatorColumn(p, g)[1..] == IndicatorColumn(p[1..], g);
      IndicatorColumnSum(p[1..], g);
    }
  }

  lemma IndicatorProductIsGroupSum(data: Matrix, p: seq<int>)
    requires |p| == |data| && Rectangular(data)
    ensures forall g: int, j: nat | 0 <= g < NumClasses(p) && j < Width(data) ::
      Dot(IndicatorColumn(p, g), Column(data, j)) == GroupSum(Column(data, j), p, g)
  {
    forall g: int, j: nat | 0 <= g < NumClasses(p) && j < Width(data)
      ensures Dot(IndicatorColumn(p, g), Column(data, j)) == GroupSum(Column(data, j), p, g)
    {
      DotWithIndicator(p, Column(data, j), g);
    }
  }

  /** `s / nf[..., np.newaxis]`: row g of s divided by the count nf[g], so that
      multiplying back by the count gives s again. */
  function DivideRows(s: Matrix, nf: seq<nat>): (r: Matrix)
    requires |s| == |nf| && forall g | 0 <= g < |nf| :: nf[g] > 0
    ensures |r| == |s|
    ensures forall g | 0 <= g < |r| :: |r[g]| == |s[g]|
    ensures forall g: int, j: nat | 0 <= g < |r| && j < |s[g]| :: r[g][j] * nf[g] as real == s[g][j]
  {
    QuotientsTimesCounts(s, nf);
    seq(|s|, g requires 0 <= g < |s| =>
      seq(|s[g]|, j requires 0 <= j < |s[g]| => s[g][j] / nf[g] as real))
  }

  lemma QuotientsTimesCounts(s: Matrix, nf: seq<nat>)
    requires |s| == |nf| && forall g | 0 <= g < |nf| :: nf[g] > 0
    ensures forall g: int, j: nat | 0 <= g < |s| && j < |s[g]| :: s[g][j] / nf[g] as real * nf[g] as real == s[g][j]
  {
    forall g: int, j: nat | 0 <= g < |s| && j < |s[g]| ensures s[g][j] / nf[g] as real * nf[g] as real == s[g][j] {
      DivTimes(s[g][j], nf[g] as real);
    }
  }

  /** `cool_mean`: the k-by-f matrix whose row g is the mean of the rows labelled g.
      Every group 0..k-1 is non-empty, so every division is by a positive count. */
  function CoolMean(data: Matrix, p: seq<int>): (r: Matrix)
    requires |p| == |data| && Rectangular(data) && WellLabelled(p)
    ensures |r| == NumClasses(p)
    ensures forall g | 0 <= g < |r| :: Count(p, g) > 0
    ensures forall g | 0 <= g < |r| :: |r[g]| == Width(data)
    ensures forall g: int, j: nat | 0 <= g < |r| && j < Width(data) ::
      r[g][j] == GroupMean(Column(data, j), p, g)
  {
    CoolMeanIsGroupMean(data, p);
    DivideRows(IndicatorProduct(data, p), UniqueCounts(p))
  }

  lemma CoolMeanIsGroupMean(data: Matrix, p: seq<int>)
    requires |p| == |data| && Rectangular(data) && WellLabelled(p)
    ensures forall g | 0 <= g < NumClasses(p) :: Count(p, g) > 0
    ensures forall g: int, j: nat | 0 <= g < NumClasses(p) && j < Width(data) ::
      DivideRows(IndicatorProduct(data, p), UniqueCounts(p))[g][j] == GroupMean(Column(data, j), p, g)
  {
    ClassesAreLabels(p);
    forall g: int, j: nat | 0 <= g < NumClasses(p) && j < Width(data)
      ensures DivideRows(IndicatorProduct(data, p), UniqueCounts(p))[g][j] == GroupMean(Column(data, j), p, g)
    {
      CoolMeanEntry(data, p, g, j);
    }
  }

  lemma CoolMeanEntry(data: Matrix, p: seq<int>, g: int, j: nat)
    requires |p| == |data| && Rectangular(data) && WellLabelled(p)
    requires 0 <= g < NumClasses(p) && j < Width(data)
    ensures Count(p, g) > 0
    ensures DivideRows(IndicatorProduct(data, p), UniqueCounts(p))[g][j] == GroupMean(Column(data, j), p, g)
  {
    CountOfClass(p, g);
    GroupSizeIsCount(p, g);
    DivideRowsAt(IndicatorProduct(data, p), UniqueCounts(p), g, j);
    assert IndicatorProduct(data, p)[g][j] == GroupSum(Column(data, j), p, g);
  }

  lemma DivideRowsAt(s: Matrix, nf: seq<nat>, g: int, j: nat)
    requires |s| == |nf| && forall g | 0 <= g < |nf| :: nf[g] > 0
    requires 0 <= g < |s| && j < |s[g]|
    ensures DivideRows(s, nf)[g][j] == s[g][j] / nf[g] as real
  {
  }

  /** Group mean times group size summed over all groups gives the column total:
      `(cool_mean(data, u) * nf[:, None]).sum(axis=0) == data.sum(axis=0)`. */
  lemma CoolMeanTimesCountsIsTotal(data: Matrix, p: seq<int>, j: nat)
    requires |p| == |data| && Rectangular(data) && WellLabelled(p) && j < Width(data)
    ensures WeightedColumn(CoolMean(data, p), UniqueCounts(p), j, NumClasses(p)) == Sum(Column(data, j))
  {
    ClassesAreLabels(p);
    forall g | 0 <= g < NumClasses(p) ensures UniqueCounts(p)[g] as real == GroupSize(p, g) {
      GroupSizeIsCount(p, g);
    }
    WeightedMeansAreTally(CoolMean(data, p), UniqueCounts(p), Column(data, j), p, j, NumClasses(p));
    TallyIsTotal(Column(data, j), p, NumClasses(p));
  }

  /** The sum over rows g < k of m[g][j] * nf[g]. */
  function WeightedColumn(m: Matrix, nf: seq<nat>, j: nat, k: nat): real
    requires k <= |m| && k <= |nf| && forall g | 0 <= g < k :: j < |m[g]|
  {
    if k == 0 then 0.0 else WeightedColumn(m, nf, j, k - 1) + m[k - 1][j] * nf[k - 1] as real
  }

  /** Weighting the first k group means by their group sizes gives the sum of the
      values in groups 0..k-1. */
  lemma {:induction false} WeightedMeansAreTally(m: Matrix, nf: seq<nat>, xs: seq<real>, p: seq<int>, j: nat, k: nat)
    requires |xs| == |p| && k <= |m| && k <= |nf|
    requires forall g | 0 <= g < k :: Count(p, g) > 0
    requires forall g | 0 <= g < k :: j < |m[g]|
    requires forall g | 0 <= g < k :: m[g][j] == GroupMean(xs, p, g)
    requires forall g | 0 <= g < k :: nf[g] as real == GroupSize(p, g)
    ensures WeightedColumn(m, nf, j, k) == Tally(xs, p, k)
  {
    if k > 0 {
      WeightedMeansAreTally(m, nf, xs, p, j, k - 1);
      GroupMeanTimesSize(xs, p, k - 1);
    }
  }

  /** With a single label every row is in group 0 and `cool_mean` is the one row of
      column means. */
  lemma CoolMeanOfOneGroup(data: Matrix, p: seq<int>)
    requires |p| == |data| > 0 && Rectangular(data)
    requires forall i | 0 <= i < |p| :: p[i] == 0
    ensures WellLabelled(p)
    ensures |CoolMean(data, p)| == 1
    ensures forall j: nat | j < Width(data) :: CoolMean(data, p)[0][j] == Mean(Column(data, j))
  {
    SingleLabel(p);
    forall j: nat | j < Width(data) ensures CoolMean(data, p)[0][j] == Mean(Column(data, j)) {
      AllInOneGroup(Column(data, j), p, 0);
      GroupMeanIsMean(Column(data, j), p, 0);
    }
  }

  /** A group of one row has that row as its mean. */
  lemma CoolMeanOfSingleton(data: Matrix, p: seq<int>, i: nat)
    requires |p| == |data| && Rectangular(data) && WellLabelled(p)
    requires i < |p| && Count(p, p[i]) == 1
    ensures CoolMean(data, p)[p[i]] == data[i]
  {
    var g := p[i];
    forall j: nat | j < Width(data) ensures CoolMean(data, p)[g][j] == data[i][j] {
      SingletonGroupMean(Column(data, j), p, g, i);
    }
  }

  /** Renaming the groups by a permutation sigma of 0..k-1 only reorders the rows of
      `cool_mean`: the mean of new group sigma[g] is the mean of old group g. */
  lemma CoolMeanOfRelabelled(data: Matrix, p: seq<int>, sigma: seq<int>)
    requires |p| == |data| && Rectangular(data) && WellLabelled(p)
    requires IsPermutation(sigma) && |sigma| == NumClasses(p)
    ensures WellLabelled(Relabel(p, sigma)) && NumClasses(Relabel(p, sigma)) == NumClasses(p)
    ensures forall g | 0 <= g < NumClasses(p) :: CoolMean(data, Relabel(p, sigma))[sigma[g]] == CoolMean(data, p)[g]
  {
    RelabelledPartition(p, sigma);
    forall g | 0 <= g < NumClasses(p) ensures CoolMean(data, Relabel(p, sigma))[sigma[g]] == CoolMean(data, p)[g] {
      CoolMeanOfRelabelledGroup(data, p, sigma, g);
    }
  }

  lemma CoolMeanOfRelabelledGroup(data: Matrix, p: seq<int>, sigma: seq<int>, g: int)
    requires |p| == |data| && Rectangular(data) && WellLabelled(p)
    requires IsPermutation(sigma) && |sigma| == NumClasses(p) && 0 <= g < NumClasses(p)
    requires WellLabelled(Relabel(p, sigma)) && NumClasses(Relabel(p, sigma)) == NumClasses(p)
    requires forall i | 0 <= i < |p| :: Relabel(p, sigma)[i] == sigma[g] <==> p[i] == g
    ensures CoolMean(data, Relabel(p, sigma))[sigma[g]] == CoolMean(data, p)[g]
  {
    var q := Relabel(p, sigma);
    forall j: nat | j < Width(data) ensures CoolMean(data, q)[sigma[g]][j] == CoolMean(data, p)[g][j] {
      SameRows(Column(data, j), p, g, q, sigma[g]);
    }
  }

  // ----------------------------------------------------------------- cool_max

  /** Row g of `umat * spdiags(arr)`: arr[i] where row i is labelled g, 0 elsewhere. */
  function MaskedRow(arr: seq<real>, p: seq<int>, g: int): (row: seq<real>)
    requires |arr| == |p|
    ensures |row| == |arr|
    ensures forall i | 0 <= i < |row| && p[i] == g :: row[i] == arr[i]
    ensures forall i | 0 <= i < |row| && p[i] != g :: row[i] == 0.0
  {
    seq(|arr|, i requires 0 <= i < |arr| => Indicator(p, i, g) * arr[i])
  }

  /** On non-negative values the zeros that mask the other groups never exceed the
      group's own maximum, so the maximum of the masked row is the group maximum. */
  lemma MaskedRowMax(arr: seq<real>, p: seq<int>, g: int)
    requires |arr| == |p| && Count(p, g) > 0 && NonNegative(arr)
    ensures Max(MaskedRow(arr, p, g)) == GroupMax(arr, p, g)
  {
    var m := GroupMax(arr, p, g);
    var i :| 0 <= i < |arr| && p[i] == g && arr[i] == m;
    assert MaskedRow(arr, p, g)[i] == m;
    forall t | 0 <= t < |arr| ensures MaskedRow(arr, p, g)[t] <= m {
      if p[t] != g {
        assert MaskedRow(arr, p, g)[t] == 0.0;
      }
    }
  }

  lemma MaskedMaxima(arr: seq<real>, p: seq<int>)
    requires |arr| == |p| && WellLabelled(p) && NonNegative(arr)
    ensures forall g | 0 <= g < NumClasses(p) :: Count(p, g) > 0
    ensures forall g | 0 <= g < NumClasses(p) :: Max(MaskedRow(arr, p, g)) == GroupMax(arr, p, g)
  {
    ClassesAreLabels(p);
    forall g | 0 <= g < NumClasses(p) ensures Max(MaskedRow(arr, p, g)) == GroupMax(arr, p, g) {
      MaskedRowMax(arr, p, g);
    }
  }

  /** `cool_max`: for each group the largest value of arr over its rows.  The source
      asks for positive values: the masking zeros would otherwise win. */
  function CoolMax(arr: seq<real>, p: seq<int>): (r: seq<real>)
    requires |arr| == |p| && WellLabelled(p) && NonNegative(arr)
    ensures |r| == NumClasses(p)
    ensures forall g | 0 <= g < |r| :: Count(p, g) > 0
    ensures forall g | 0 <= g < |r| :: r[g] == GroupMax(arr, p, g)
  {
    MaskedMaxima(arr, p);
    seq(NumClasses(p), g requires 0 <= g < NumClasses(p) => Max(MaskedRow(arr, p, g)))
  }

  /** Each group's entry of `cool_max` bounds every value of the group and is one of them. */
  lemma CoolMaxIsAttainedBound(arr: seq<real>, p: seq<int>)
    requires |arr| == |p| && WellLabelled(p) && NonNegative(arr)
    ensures forall i | 0 <= i < |arr| :: 0 <= p[i] < NumClasses(p) && arr[i] <= CoolMax(arr, p)[p[i]]
    ensures forall g | 0 <= g < NumClasses(p) :: IsGroupValue(arr, p, g, CoolMax(arr, p)[g])
  {
    forall i | 0 <= i < |arr| ensures arr[i] <= CoolMax(arr, p)[p[i]] {
      assert CoolMax(arr, p)[p[i]] == GroupMax(arr, p, p[i]);
    }
    forall g | 0 <= g < NumClasses(p) ensures IsGroupValue(arr, p, g, CoolMax(arr, p)[g]) {
      assert CoolMax(arr, p)[g] == GroupMax(arr, p, g);
    }
  }

  /** v is the value of some row labelled g. */
  ghost predicate IsGroupValue(xs: seq<real>, p: seq<int>, g: int, v: real)
    requires |xs| == |p|
  {
    exists i | 0 <= i < |xs| :: p[i] == g && xs[i] == v
  }

  /** With a single label `cool_max` is the one maximum of the whole array. */
  lemma CoolMaxOfOneGroup(arr: seq<real>, p: seq<int>)
    requires |arr| == |p| > 0 && NonNegative(arr)
    requires forall i | 0 <= i < |p| :: p[i] == 0
    ensures WellLabelled(p)
    ensures CoolMax(arr, p) == [Max(arr)]
  {
    SingleLabel(p);
    CountOfClass(p, 0);
    var m := GroupMax(arr, p, 0);
    assert CoolMax(arr, p)[0] == m;
    var i :| 0 <= i < |arr| && p[i] == 0 && arr[i] == m;
    var t :| 0 <= t < |arr| && arr[t] == Max(arr);
    assert m == Max(arr);
  }

  /** q refines p: rows in the same group of q are in the same group of p. */
  predicate Refines(q: seq<int>, p: seq<int>) {
    |q| == |p| && forall i, t | 0 <= i < |q| && 0 <= t < |q| && q[i] == q[t] :: p[i] == p[t]
  }

  /** Under a refinement no fine group's maximum exceeds the maximum of the coarse
      group that contains it. */
  lemma RefinedMaxBelow(arr: seq<real>, p: seq<int>, q: seq<int>)
    requires |arr| == |p| && WellLabelled(p) && WellLabelled(q) && NonNegative(arr) && Refines(q, p)
    ensures forall i | 0 <= i < |arr| :: CoolMax(arr, q)[q[i]] <= CoolMax(arr, p)[p[i]]
  {
    forall i | 0 <= i < |arr| ensures CoolMax(arr, q)[q[i]] <= CoolMax(arr, p)[p[i]] {
      RefinedMaxBelowAt(arr, p, q, i);
    }
  }

  lemma RefinedMaxBelowAt(arr: seq<real>, p: seq<int>, q: seq<int>, i: int)
    requires |arr| == |p| && WellLabelled(p) && WellLabelled(q) && NonNegative(arr) && Refines(q, p)
    requires 0 <= i < |arr|
    ensures CoolMax(arr, q)[q[i]] <= CoolMax(arr, p)[p[i]]
  {
    assert CoolMax(arr, q)[q[i]] == GroupMax(arr, q, q[i]);
    var t :| 0 <= t < |arr| && q[t] == q[i] && arr[t] == GroupMax(arr, q, q[i]);
    assert p[t] == p[i];
  }

  /** Under a refinement each coarse maximum is reported by a fine group inside it. */
  lemma RefinedMaxAttained(arr: seq<real>, p: seq<int>, q: seq<int>)
    requires |arr| == |p| && WellLabelled(p) && WellLabelled(q) && NonNegative(arr) && Refines(q, p)
    ensures forall g | 0 <= g < NumClasses(p) :: FineGroupReports(arr, p, q, g)
  {
    forall g | 0 <= g < NumClasses(p) ensures FineGroupReports(arr, p, q, g) {
      RefinedMaxAttainedAt(arr, p, q, g);
    }
  }

  lemma RefinedMaxAttainedAt(arr: seq<real>, p: seq<int>, q: seq<int>, g: int)
    requires |arr| == |p| && WellLabelled(p) && WellLabelled(q) && NonNegative(arr) && Refines(q, p)
    requires 0 <= g < NumClasses(p)
    ensures FineGroupReports(arr, p, q, g)
  {
    CountOfClass(p, g);
    assert CoolMax(arr, p)[g] == GroupMax(arr, p, g);
    var t :| 0 <= t < |arr| && p[t] == g && arr[t] == GroupMax(arr, p, g);
    CountOfClass(q, q[t]);
    assert CoolMax(arr, q)[q[t]] == GroupMax(arr, q, q[t]);
    RefinedMaxBelowAt(arr, p, q, t);
  }

  /** Some row of coarse group g lies in a fine group whose maximum is g's maximum. */
  ghost predicate FineGroupReports(arr: seq<real>, p: seq<int>, q: seq<int>, g: int)
    requires |arr| == |p| && WellLabelled(p) && WellLabelled(q) && NonNegative(arr) && |q| == |p|
    requires 0 <= g < NumClasses(p)
  {
    exists i | 0 <= i < |arr| :: p[i] == g && CoolMax(arr, q)[q[i]] == CoolMax(arr, p)[g]
  }

  /** Without non-negativity the masked maximum is not the group maximum: two rows
      with value -1 in groups 0 and 1 give 0 for group 0. */
  lemma NegativeValuesAreMasked()
    ensures Max(MaskedRow([-1.0, -1.0], [0, 1], 0)) == 0.0
    ensures GroupMax([-1.0, -1.0], [0, 1], 0) == -1.0
  {
    var row := MaskedRow([-1.0, -1.0], [0, 1], 0);
    assert row[0] == -1.0 && row[1] == 0.0;
    assert Members([-1.0, -1.0], [0, 1], 0) == [-1.0];
  }

  // ---------------------------------------------------------- cool_max_radius

  /** `cool_max_radius`: for each group the largest Euclidean norm of its rows. */
  function CoolMaxRadius(data: Matrix, p: seq<int>, sqrt: real -> real): (r: seq<real>)
    requires |p| == |data| && WellLabelled(p) && SqrtContract(sqrt)
    ensures |r| == NumClasses(p)
    ensures forall i | 0 <= i < |data| :: 0 <= p[i] < |r| && Norm(data[i], sqrt) <= r[p[i]]
    ensures forall g | 0 <= g < |r| :: IsGroupNorm(data, p, g, r[g], sqrt)
  {
    NormMaxima(data, p, sqrt);
    CoolMax(RowNorms(data, sqrt), p)
  }

  /** v is the norm of some row labelled g. */
  ghost predicate IsGroupNorm(data: Matrix, p: seq<int>, g: int, v: real, sqrt: real -> real)
    requires |p| == |data| && SqrtContract(sqrt)
  {
    exists i | 0 <= i < |data| :: p[i] == g && Norm(data[i], sqrt) == v
  }

  lemma NormMaxima(data: Matrix, p: seq<int>, sqrt: real -> real)
    requires |p| == |data| && WellLabelled(p) && SqrtContract(sqrt)
    ensures forall i | 0 <= i < |data| :: Norm(data[i], sqrt) <= CoolMax(RowNorms(data, sqrt), p)[p[i]]
    ensures forall g | 0 <= g < NumClasses(p) :: IsGroupNorm(data, p, g, CoolMax(RowNorms(data, sqrt), p)[g], sqrt)
  {
    ClassesAreLabels(p);
    ClassesAreNonEmpty(p);
    forall i | 0 <= i < |data| ensures Norm(data[i], sqrt) <= CoolMax(RowNorms(data, sqrt), p)[p[i]] {
      assert CoolMax(RowNorms(data, sqrt), p)[p[i]] == GroupMax(RowNorms(data, sqrt), p, p[i]);
      assert RowNorms(data, sqrt)[i] == Norm(data[i], sqrt);
    }
    forall g | 0 <= g < NumClasses(p) ensures IsGroupNorm(data, p, g, CoolMax(RowNorms(data, sqrt), p)[g], sqrt) {
      assert CoolMax(RowNorms(data, sqrt), p)[g] == GroupMax(RowNorms(data, sqrt), p, g);
      var i :| 0 <= i < |data| && p[i] == g && RowNorms(data, sqrt)[i] == GroupMax(RowNorms(data, sqrt), p, g);
      assert Norm(data[i], sqrt) == CoolMax(RowNorms(data, sqrt), p)[g];
    }
  }

  // ----------------------------------------------------------------- cool_std

  /** `np.sqrt(v) + epsilon`, entry by entry. */
  function RootsPlus(v: Matrix, epsilon: real, sqrt: real -> real): (r: Matrix)
    ensures |r| == |v|
    ensures forall g | 0 <= g < |r| :: |r[g]| == |v[g]|
    ensures forall g: int, j: nat | 0 <= g < |r| && j < |v[g]| :: r[g][j] - epsilon == sqrt(v[g][j])
    ensures SqrtContract(sqrt) && (forall g: int, j: nat | 0 <= g < |v| && j < |v[g]| :: 0.0 <= v[g][j]) ==>
      forall g: int, j: nat | 0 <= g < |r| && j < |r[g]| :: epsilon <= r[g][j]
  {
    seq(|v|, g requires 0 <= g < |v| =>
      seq(|v[g]|, j requires 0 <= j < |v[g]| => sqrt(v[g][j]) + epsilon))
  }

  /** `cool_std`: a k-by-f matrix whose entry (g, j) is the square root of the group-g
      mean of (data - means)^2 in column j, plus epsilon, so never below epsilon. */
  function CoolStd(data: Matrix, means: Matrix, p: seq<int>, epsilon: real, sqrt: real -> real): (r: Matrix)
    requires |p| == |data| && Rectangular(data) && SameShape(data, means)
    requires WellLabelled(p) && SqrtContract(sqrt)
    ensures |r| == NumClasses(p)
    ensures forall g | 0 <= g < |r| :: Count(p, g) > 0
    ensures forall g | 0 <= g < |r| :: |r[g]| == Width(data)
    ensures forall g: int, j: nat | 0 <= g < |r| && j < Width(data) ::
      r[g][j] == sqrt(GroupMean(Column(SquaredDifference(data, means), j), p, g)) + epsilon
    ensures forall g: int, j: nat | 0 <= g < |r| && j < Width(data) :: epsilon <= r[g][j]
  {
    MeanSquaredDifferenceNonNegative(data, means, p);
    RootsPlus(CoolMean(SquaredDifference(data, means), p), epsilon, sqrt)
  }

  lemma MeanSquaredDifferenceNonNegative(data: Matrix, means: Matrix, p: seq<int>)
    requires |p| == |data| && Rectangular(data) && SameShape(data, means) && WellLabelled(p)
    ensures forall g: int, j: nat | 0 <= g < NumClasses(p) && j < Width(data) ::
      0.0 <= CoolMean(SquaredDifference(data, means), p)[g][j]
  {
    ClassesAreLabels(p);
    SquaredDifferenceNonNegative(data, means, p);
    forall g: int, j: nat | 0 <= g < NumClasses(p) && j < Width(data)
      ensures 0.0 <= CoolMean(SquaredDifference(data, means), p)[g][j]
    {
      assert CoolMean(SquaredDifference(data, means), p)[g][j]
        == GroupMean(Column(SquaredDifference(data, means), j), p, g);
    }
  }

  lemma SquaredDifferenceNonNegative(data: Matrix, means: Matrix, p: seq<int>)
    requires |p| == |data| && Rectangular(data) && SameShape(data, means)
    ensures forall g: int, j: nat | Count(p, g) > 0 && j < Width(data) ::
      0.0 <= GroupMean(Column(SquaredDifference(data, means), j), p, g)
  {
    forall g: int, j: nat | Count(p, g) > 0 && j < Width(data)
      ensures 0.0 <= GroupMean(Column(SquaredDifference(data, means), j), p, g)
    {
      var col := Column(SquaredDifference(data, means), j);
      forall i | 0 <= i < |col| ensures 0.0 <= col[i] {
        SquareNonNegative(data[i][j] - means[i][j]);
      }
      GroupMeanNonNegative(col, p, g);
    }
  }

  /** `cool_mean(data, u)[u]`: each row replaced by its group's mean. */
  function GroupMeans(data: Matrix, p: seq<int>): (means: Matrix)
    requires |p| == |data| && Rectangular(data) && WellLabelled(p)
    ensures SameShape(data, means)
    ensures forall g | 0 <= g < NumClasses(p) :: Count(p, g) > 0
    ensures forall i: int, j: nat | 0 <= i < |data| && j < Width(data) ::
      means[i][j] == GroupMean(Column(data, j), p, p[i])
  {
    ClassesAreNonEmpty(p);
    Broadcast(CoolMean(data, p), p)
  }

  /** Given the group means of the same data (as `cool_normalize` passes them),
      entry (g, j) of `cool_std` is the standard deviation of group g in column j,
      plus epsilon. */
  lemma CoolStdOfGroupMeans(data: Matrix, p: seq<int>, epsilon: real, sqrt: real -> real)
    requires |p| == |data| && Rectangular(data) && WellLabelled(p) && SqrtContract(sqrt)
    ensures forall g | 0 <= g < NumClasses(p) :: Count(p, g) > 0
    ensures forall g: int, j: nat | 0 <= g < NumClasses(p) && j < Width(data) ::
      CoolStd(data, GroupMeans(data, p), p, epsilon, sqrt)[g][j] == GroupStd(Column(data, j), p, g, epsilon, sqrt)
  {
    ClassesAreLabels(p);
    forall g: int, j: nat | 0 <= g < NumClasses(p) && j < Width(data)
      ensures CoolStd(data, GroupMeans(data, p), p, epsilon, sqrt)[g][j] == GroupStd(Column(data, j), p, g, epsilon, sqrt)
    {
      CoolStdOfGroup(data, p, epsilon, sqrt, g, j);
    }
  }

  lemma CoolStdOfGroup(data: Matrix, p: seq<int>, epsilon: real, sqrt: real -> real, g: int, j: nat)
    requires |p| == |data| && Rectangular(data) && WellLabelled(p) && SqrtContract(sqrt)
    requires 0 <= g < NumClasses(p) && Count(p, g) > 0 && j < Width(data)
    ensures CoolStd(data, GroupMeans(data, p), p, epsilon, sqrt)[g][j] == GroupStd(Column(data, j), p, g, epsilon, sqrt)
  {
    forall i | 0 <= i < |data| && p[i] == g ensures GroupMeans(data, p)[i][j] == GroupMean(Column(data, j), p, g) {
    }
    GroupVarianceOfColumn(data, GroupMeans(data, p), p, g, j);
  }

  lemma GroupVarianceOfColumn(data: Matrix, means: Matrix, p: seq<int>, g: int, j: nat)
    requires |p| == |data| && Rectangular(data) && SameShape(data, means) && Count(p, g) > 0 && j < Width(data)
    requires forall i | 0 <= i < |data| && p[i] == g :: means[i][j] == GroupMean(Column(data, j), p, g)
    ensures GroupMean(Column(SquaredDifference(data, means), j), p, g)
      == Mean(SquaredDeviations(Members(Column(data, j), p, g), GroupMean(Column(data, j), p, g)))
  {
    var xs := Column(data, j);
    var ys := Column(SquaredDifference(data, means), j);
    forall i | 0 <= i < |p| && p[i] == g ensures ys[i] == Square(xs[i] - GroupMean(xs, p, g)) {
      assert ys[i] == Square(data[i][j] - means[i][j]);
    }
    GroupMeanOfSquaredDeviations(xs, ys, p, g);
  }

  /** A group of one row, measured against its own mean, has standard deviation 0,
      so `cool_std` reports exactly epsilon. */
  lemma CoolStdOfSingleton(data: Matrix, means: Matrix, p: seq<int>, epsilon: real, sqrt: real -> real, i: nat)
    requires |p| == |data| && Rectangular(data) && SameShape(data, means)
    requires WellLabelled(p) && SqrtContract(sqrt)
    requires i < |p| && Count(p, p[i]) == 1 && means[i] == data[i]
    ensures forall j: nat | j < Width(data) :: CoolStd(data, means, p, epsilon, sqrt)[p[i]][j] == epsilon
  {
    forall j: nat | j < Width(data) ensures CoolStd(data, means, p, epsilon, sqrt)[p[i]][j] == epsilon {
      var ys := Column(SquaredDifference(data, means), j);
      assert means[i][j] == data[i][j];
      assert ys[i] == Square(data[i][j] - means[i][j]) == 0.0;
      SingletonGroupMean(ys, p, p[i], i);
    }
  }

  // ------------------------------------------------------------ cool_normalize

  /** `(data - means) / stds`, entry by entry: scaling back by stds and adding
      means again gives data. */
  function Normalized(data: Matrix, means: Matrix, stds: Matrix): (r: Matrix)
    requires SameShape(data, means) && SameShape(data, stds)
    requires forall i: int, j: nat | 0 <= i < |stds| && j < |stds[i]| :: stds[i][j] != 0.0
    ensures SameShape(r, data)
    ensures forall i: int, j: nat | 0 <= i < |r| && j < |r[i]| :: r[i][j] * stds[i][j] + means[i][j] == data[i][j]
  {
    StandardizedEntriesRoundTrip(data, means, stds);
    seq(|data|, i requires 0 <= i < |data| =>
      seq(|data[i]|, j requires 0 <= j < |data[i]| => Standardize(data[i][j], means[i][j], stds[i][j])))
  }

  lemma StandardizedEntriesRoundTrip(data: Matrix, means: Matrix, stds: Matrix)
    requires SameShape(data, means) && SameShape(data, stds)
    requires forall i: int, j: nat | 0 <= i < |stds| && j < |stds[i]| :: stds[i][j] != 0.0
    ensures forall i: int, j: nat | 0 <= i < |data| && j < |data[i]| ::
      Standardize(data[i][j], means[i][j], stds[i][j]) * stds[i][j] + means[i][j] == data[i][j]
  {
    forall i: int, j: nat | 0 <= i < |data| && j < |data[i]|
      ensures Standardize(data[i][j], means[i][j], stds[i][j]) * stds[i][j] + means[i][j] == data[i][j]
    {
      StandardizeRoundTrip(data[i][j], means[i][j], stds[i][j]);
    }
  }

  /** `cool_std(data, means, u)[u]` with the group means: each row replaced by its
      group's standard deviation plus epsilon. */
  function GroupStds(data: Matrix, p: seq<int>, epsilon: real, sqrt: real -> real): (stds: Matrix)
    requires |p| == |data| && Rectangular(data) && WellLabelled(p) && SqrtContract(sqrt)
    ensures SameShape(data, stds)
    ensures forall g | 0 <= g < NumClasses(p) :: Count(p, g) > 0
    ensures forall i: int, j: nat | 0 <= i < |data| && j < Width(data) ::
      stds[i][j] == GroupStd(Column(data, j), p, p[i], epsilon, sqrt)
  {
    ClassesAreNonEmpty(p);
    CoolStdOfGroupMeans(data, p, epsilon, sqrt);
    Broadcast(CoolStd(data, GroupMeans(data, p), p, epsilon, sqrt), p)
  }

  /** `cool_normalize`: each entry minus its group's mean, over its group's standard
      deviation plus epsilon.  The divisor is at least epsilon > 0. */
  function CoolNormalize(data: Matrix, p: seq<int>, epsilon: real, sqrt: real -> real): (r: Matrix)
    requires |p| == |data| && Rectangular(data) && WellLabelled(p) && SqrtContract(sqrt)
    requires 0.0 < epsilon
    ensures SameShape(r, data)
    ensures forall g | 0 <= g < NumClasses(p) :: Count(p, g) > 0
    ensures forall i: int, j: nat | 0 <= i < |data| && j < Width(data) ::
      r[i][j] == Standardize(data[i][j], GroupMean(Column(data, j), p, p[i]), GroupStd(Column(data, j), p, p[i], epsilon, sqrt))
  {
    ClassesAreNonEmpty(p);
    StdsAreNonZero(data, p, epsilon, sqrt);
    Normalized(data, GroupMeans(data, p), GroupStds(data, p, epsilon, sqrt))
  }

  lemma StdsAreNonZero(data: Matrix, p: seq<int>, epsilon: real, sqrt: real -> real)
    requires |p| == |data| && Rectangular(data) && WellLabelled(p) && SqrtContract(sqrt) && 0.0 < epsilon
    ensures forall i: int, j: nat | 0 <= i < |data| && j < |data[i]| :: GroupStds(data, p, epsilon, sqrt)[i][j] != 0.0
  {
    forall i: int, j: nat | 0 <= i < |data| && j < |data[i]| ensures GroupStds(data, p, epsilon, sqrt)[i][j] != 0.0 {
      assert GroupStds(data, p, epsilon, sqrt)[i][j] == GroupStd(Column(data, j), p, p[i], epsilon, sqrt);
    }
  }

  /** Within every group and column the normalized values sum to zero. */
  lemma NormalizedGroupsSumToZero(data: Matrix, p: seq<int>, epsilon: real, sqrt: real -> real)
    requires |p| == |data| && Rectangular(data) && WellLabelled(p) && SqrtContract(sqrt)
    requires 0.0 < epsilon
    ensures Rectangular(CoolNormalize(data, p, epsilon, sqrt))
    ensures Width(CoolNormalize(data, p, epsilon, sqrt)) == Width(data)
    ensures forall g: int, j: nat | 0 <= g < NumClasses(p) && j < Width(data) ::
      GroupSum(Column(CoolNormalize(data, p, epsilon, sqrt), j), p, g) == 0.0
  {
    forall g: int, j: nat | 0 <= g < NumClasses(p) && j < Width(data)
      ensures GroupSum(Column(CoolNormalize(data, p, epsilon, sqrt), j), p, g) == 0.0
    {
      StandardizedColumnSumsToZero(data, CoolNormalize(data, p, epsilon, sqrt), p, epsilon, sqrt, g, j);
    }
  }

  /** Any matrix holding the group-standardized entries of data has group sums zero. */
  lemma StandardizedColumnSumsToZero(data: Matrix, r: Matrix, p: seq<int>, epsilon: real, sqrt: real -> real, g: int, j: nat)
    requires |p| == |data| && Rectangular(data) && SqrtContract(sqrt) && 0.0 < epsilon
    requires WellLabelled(p) && forall g | 0 <= g < NumClasses(p) :: Count(p, g) > 0
    requires SameShape(r, data)
    requires forall i: int, j: nat | 0 <= i < |data| && j < Width(data) ::
      r[i][j] == Standardize(data[i][j], GroupMean(Column(data, j), p, p[i]), GroupStd(Column(data, j), p, p[i], epsilon, sqrt))
    requires Count(p, g) > 0 && j < Width(data)
    ensures GroupSum(Column(r, j), p, g) == 0.0
  {
    var xs := Column(data, j);
    var ys := Column(r, j);
    var d := GroupStd(xs, p, g, epsilon, sqrt);
    forall i | 0 <= i < |p| && p[i] == g ensures ys[i] == Standardize(xs[i], GroupMean(xs, p, g), d) {
      assert r[i][j] == Standardize(data[i][j], GroupMean(xs, p, p[i]), GroupStd(xs, p, p[i], epsilon, sqrt));
    }
    StandardizedGroupSumsToZero(xs, ys, p, g, d);
  }

  /** The group means of the normalized data are all zero. */
  lemma NormalizedMeansAreZero(data: Matrix, p: seq<int>, epsilon: real, sqrt: real -> real)
    requires |p| == |data| && Rectangular(data) && WellLabelled(p) && SqrtContract(sqrt)
    requires 0.0 < epsilon
    ensures Rectangular(CoolNormalize(data, p, epsilon, sqrt))
    ensures forall g: int, j: nat | 0 <= g < NumClasses(p) && j < Width(data) ::
      CoolMean(CoolNormalize(data, p, epsilon, sqrt), p)[g][j] == 0.0
  {
    NormalizedGroupsSumToZero(data, p, epsilon, sqrt);
    ZeroSumsZeroMeans(CoolNormalize(data, p, epsilon, sqrt), p);
  }

  /** Groups whose values sum to zero have mean zero. */
  lemma ZeroSumsZeroMeans(m: Matrix, p: seq<int>)
    requires |p| == |m| && Rectangular(m) && WellLabelled(p)
    requires forall g: int, j: nat | 0 <= g < NumClasses(p) && j < Width(m) :: GroupSum(Column(m, j), p, g) == 0.0
    ensures forall g: int, j: nat | 0 <= g < NumClasses(p) && j < Width(m) :: CoolMean(m, p)[g][j] == 0.0
  {
    ClassesAreNonEmpty(p);
    forall g: int, j: nat | 0 <= g < NumClasses(p) && j < Width(m) ensures CoolMean(m, p)[g][j] == 0.0 {
      assert CoolMean(m, p)[g][j] == GroupMean(Column(m, j), p, g);
      ZeroSumZeroMean(Column(m, j), p, g);
    }
  }
}
