/** Reference definitions of the per-group statistics, written the plain way:
    collect the values of the rows whose label is g, then sum, count, average,
    maximise or spread them.  The aggregation functions compute the same numbers
    through the indicator matrix; their contracts are stated against these. */
module Groups {
  import opened Partition
  import opened Arrays

  function Sum(s: seq<real>): real {
    if s == [] then 0.0 else s[0] + Sum(s[1..])
  }

  /** The largest element of a non-empty sequence. */
  function Max(s: seq<real>): (m: real)
    requires |s| > 0
    ensures m in s
    ensures forall i | 0 <= i < |s| :: s[i] <= m
  {
    if |s| == 1 then s[0]
    else
      var m := Max(s[1..]);
      if s[0] < m then m else s[0]
  }

  function Mean(s: seq<real>): real
    requires |s| > 0
  {
    Sum(s) / |s| as real
  }

  /** `(s - c) ** 2`, element by element. */
  function SquaredDeviations(s: seq<real>, c: real): (r: seq<real>)
    ensures |r| == |s|
  {
    if s == [] then [] else [Square(s[0] - c)] + SquaredDeviations(s[1..], c)
  }

  /** One value centred on c and scaled by 1 / d. */
  function Standardize(x: real, c: real, d: real): real
    requires d != 0.0
  {
    (x - c) / d
  }

  /** Scaling a standardized value back by d and adding c gives it back. */
  lemma StandardizeRoundTrip(x: real, c: real, d: real)
    requires d != 0.0
    ensures Standardize(x, c, d) * d + c == x
  {
  }

  /** `(s - c) / d`, element by element. */
  function Standardized(s: seq<real>, c: real, d: real): (r: seq<real>)
    requires d != 0.0
    ensures |r| == |s|
  {
    if s == [] then [] else [Standardize(s[0], c, d)] + Standardized(s[1..], c, d)
  }

  /** The values xs[i] of the rows i whose label p[i] is g, in row order. */
  function Members(xs: seq<real>, p: seq<int>, g: int): (r: seq<real>)
    requires |xs| == |p|
    ensures |r| == Count(p, g)
  {
    if xs == [] then []
    else (if p[0] == g then [xs[0]] else []) + Members(xs[1..], p[1..], g)
  }

  /** The sum of the values of the rows labelled g, row by row. */
  function GroupSum(xs: seq<real>, p: seq<int>, g: int): real
    requires |xs| == |p|
  {
    if xs == [] then 0.0 else (if p[0] == g then xs[0] else 0.0) + GroupSum(xs[1..], p[1..], g)
  }

  /** The group sum is the sum of the group's members. */
  lemma {:induction false} GroupSumOfMembers(xs: seq<real>, p: seq<int>, g: int)
    requires |xs| == |p|
    ensures GroupSum(xs, p, g) == Sum(Members(xs, p, g))
  {
    if xs != [] {
      GroupSumOfMembers(xs[1..], p[1..], g);
      if p[0] == g {
        assert Members(xs, p, g) == [xs[0]] + Members(xs[1..], p[1..], g);
        assert Members(xs, p, g)[1..] == Members(xs[1..], p[1..], g);
      } else {
        assert Members(xs, p, g) == Members(xs[1..], p[1..], g);
      }
    }
  }

  /** The number of rows labelled g, counted in the reals. */
  function GroupSize(p: seq<int>, g: int): real {
    if p == [] then 0.0 else (if p[0] == g then 1.0 else 0.0) + GroupSize(p[1..], g)
  }

  lemma {:induction false} GroupSizeIsCount(p: seq<int>, g: int)
    ensures GroupSize(p, g) == Count(p, g) as real
  {
    if p != [] {
      GroupSizeIsCount(p[1..], g);
    }
  }

  lemma GroupSizePositive(p: seq<int>, g: int)
    requires Count(p, g) > 0
    ensures GroupSize(p, g) > 0.0
  {
    GroupSizeIsCount(p, g);
  }

  /** The arithmetic mean of group g: its sum over its size. */
  function GroupMean(xs: seq<real>, p: seq<int>, g: int): real
    requires |xs| == |p| && Count(p, g) > 0
  {
    GroupSizePositive(p, g);
    GroupSum(xs, p, g) / GroupSize(p, g)
  }

  /** A group whose values sum to zero has mean zero. */
  lemma ZeroSumZeroMean(xs: seq<real>, p: seq<int>, g: int)
    requires |xs| == |p| && Count(p, g) > 0 && GroupSum(xs, p, g) == 0.0
    ensures GroupMean(xs, p, g) == 0.0
  {
    GroupSizePositive(p, g);
  }

  /** The group mean times the group size gives back the group sum. */
  lemma GroupMeanTimesSize(xs: seq<real>, p: seq<int>, g: int)
    requires |xs| == |p| && Count(p, g) > 0
    ensures GroupMean(xs, p, g) * GroupSize(p, g) == GroupSum(xs, p, g)
  {
    GroupSizePositive(p, g);
    DivTimes(GroupSum(xs, p, g), GroupSize(p, g));
  }

  /** The group mean is the mean of the group's members. */
  lemma GroupMeanIsMean(xs: seq<real>, p: seq<int>, g: int)
    requires |xs| == |p| && Count(p, g) > 0
    ensures GroupMean(xs, p, g) == Mean(Members(xs, p, g))
  {
    GroupSumOfMembers(xs, p, g);
    GroupSizeIsCount(p, g);
  }

  /** The maximum of group g: at least every value in the group, and one of them. */
  function GroupMax(xs: seq<real>, p: seq<int>, g: int): (m: real)
    requires |xs| == |p| && Count(p, g) > 0
    ensures forall i | 0 <= i < |xs| && p[i] == g :: xs[i] <= m
    ensures exists i | 0 <= i < |xs| :: p[i] == g && xs[i] == m
  {
    MembersAreGroupValues(xs, p, g);
    var m := Max(Members(xs, p, g));
    assert forall v | v in Members(xs, p, g) :: v <= m;
    m
  }

  /** The population standard deviation of group g about its own mean, plus epsilon;
      never below epsilon. */
  function GroupStd(xs: seq<real>, p: seq<int>, g: int, epsilon: real, sqrt: real -> real): (r: real)
    requires |xs| == |p| && Count(p, g) > 0 && SqrtContract(sqrt)
    ensures epsilon <= r
  {
    MeanOfSquaresNonNegative(Members(xs, p, g), GroupMean(xs, p, g));
    sqrt(Mean(SquaredDeviations(Members(xs, p, g), GroupMean(xs, p, g)))) + epsilon
  }

  /** The members of group g are exactly the values of the rows labelled g. */
  lemma {:induction false} MembersAreGroupValues(xs: seq<real>, p: seq<int>, g: int)
    requires |xs| == |p|
    ensures forall i | 0 <= i < |xs| && p[i] == g :: xs[i] in Members(xs, p, g)
    ensures forall v | v in Members(xs, p, g) :: exists i | 0 <= i < |xs| :: p[i] == g && xs[i] == v
  {
    if xs != [] {
      MembersAreGroupValues(xs[1..], p[1..], g);
      var head := if p[0] == g then [xs[0]] else [];
      var rest := Members(xs[1..], p[1..], g);
      assert Members(xs, p, g) == head + rest;
      forall i | 0 <= i < |xs| && p[i] == g ensures xs[i] in Members(xs, p, g) {
        if i > 0 {
          assert xs[1..][i - 1] in rest;
        }
      }
      forall v | v in Members(xs, p, g) ensures exists i | 0 <= i < |xs| :: p[i] == g && xs[i] == v {
        if v in rest {
          var i :| 0 <= i < |xs| - 1 && p[1..][i] == g && xs[1..][i] == v;
          assert p[i + 1] == g && xs[i + 1] == v;
        } else {
          assert p[0] == g && xs[0] == v;
        }
      }
    }
  }

  /** If ys[i] == f(xs[i]) on every row of group g, the members of ys are the
      images under f of the members of xs, position by position. */
  lemma {:induction false} MembersOfPointwise(xs: seq<real>, ys: seq<real>, p: seq<int>, g: int, f: real -> real)
    requires |xs| == |ys| == |p|
    requires forall i | 0 <= i < |p| && p[i] == g :: ys[i] == f(xs[i])
    ensures forall m | 0 <= m < Count(p, g) :: Members(ys, p, g)[m] == f(Members(xs, p, g)[m])
  {
    if xs != [] {
      MembersOfPointwise(xs[1..], ys[1..], p[1..], g, f);
      if p[0] == g {
        assert Members(xs, p, g) == [xs[0]] + Members(xs[1..], p[1..], g);
        assert Members(ys, p, g) == [ys[0]] + Members(ys[1..], p[1..], g);
      }
    }
  }

  lemma {:induction false} SquaredDeviationsAt(s: seq<real>, c: real, m: nat)
    requires m < |s|
    ensures SquaredDeviations(s, c)[m] == Square(s[m] - c)
  {
    if m > 0 {
      SquaredDeviationsAt(s[1..], c, m - 1);
    }
  }

  lemma {:induction false} StandardizedAt(s: seq<real>, c: real, d: real, m: nat)
    requires d != 0.0 && m < |s|
    ensures Standardized(s, c, d)[m] == Standardize(s[m], c, d)
  {
    if m > 0 {
      StandardizedAt(s[1..], c, d, m - 1);
    }
  }

  /** If ys holds the squared deviations of xs from c on the rows of group g, the
      members of ys are the squared deviations of the members of xs. */
  lemma MembersOfSquaredDeviations(xs: seq<real>, ys: seq<real>, p: seq<int>, g: int, c: real)
    requires |xs| == |ys| == |p|
    requires forall i | 0 <= i < |p| && p[i] == g :: ys[i] == Square(xs[i] - c)
    ensures Members(ys, p, g) == SquaredDeviations(Members(xs, p, g), c)
  {
    var f := (x: real) => Square(x - c);
    MembersOfPointwise(xs, ys, p, g, f);
    forall m | 0 <= m < Count(p, g)
      ensures Members(ys, p, g)[m] == SquaredDeviations(Members(xs, p, g), c)[m]
    {
      SquaredDeviationsAt(Members(xs, p, g), c, m);
    }
  }

  /** If ys holds (xs - c) / d on the rows of group g, the members of ys are the
      standardized members of xs. */
  lemma MembersOfStandardized(xs: seq<real>, ys: seq<real>, p: seq<int>, g: int, c: real, d: real)
    requires |xs| == |ys| == |p| && d != 0.0
    requires forall i | 0 <= i < |p| && p[i] == g :: ys[i] == Standardize(xs[i], c, d)
    ensures Members(ys, p, g) == Standardized(Members(xs, p, g), c, d)
  {
    var f := (x: real) => Standardize(x, c, d);
    MembersOfPointwise(xs, ys, p, g, f);
    forall m | 0 <= m < Count(p, g)
      ensures Members(ys, p, g)[m] == Standardized(Members(xs, p, g), c, d)[m]
    {
      StandardizedAt(Members(xs, p, g), c, d, m);
    }
  }

  lemma {:induction false} SumNonNegative(s: seq<real>)
    requires NonNegative(s)
    ensures 0.0 <= Sum(s)
  {
    if s != [] {
      SumNonNegative(s[1..]);
    }
  }

  lemma {:induction false} SquaredDeviationsNonNegative(s: seq<real>, c: real)
    ensures NonNegative(SquaredDeviations(s, c))
  {
    if s != [] {
      SquaredDeviationsNonNegative(s[1..], c);
      SquareNonNegative(s[0] - c);
    }
  }

  /** A mean of squared deviations, a variance, is never negative. */
  lemma MeanOfSquaresNonNegative(s: seq<real>, c: real)
    requires |s| > 0
    ensures 0.0 <= Mean(SquaredDeviations(s, c))
  {
    SquaredDeviationsNonNegative(s, c);
    SumNonNegative(SquaredDeviations(s, c));
    QuotientNonNegative(Sum(SquaredDeviations(s, c)), |s| as real);
  }

  /** Summing standardized values: Sum((s - c) / d) * d == Sum(s) - c * |s|. */
  lemma {:induction false} SumOfStandardized(s: seq<real>, c: real, d: real)
    requires d != 0.0
    ensures Sum(Standardized(s, c, d)) * d == Sum(s) - c * |s| as real
  {
    if s != [] {
      SumOfStandardized(s[1..], c, d);
      assert Standardized(s, c, d) == [Standardize(s[0], c, d)] + Standardized(s[1..], c, d);
      assert Standardized(s, c, d)[1..] == Standardized(s[1..], c, d);
      AffineStep(Sum(Standardized(s, c, d)), Sum(Standardized(s[1..], c, d)), Standardize(s[0], c, d),
                 Sum(s), Sum(s[1..]), s[0], c, |s| as real, |s[1..]| as real, d);
    }
  }

  /** Standardizing about the sequence's own mean gives values that sum to zero. */
  lemma StandardizedAboutMeanSumsToZero(s: seq<real>, d: real)
    requires |s| > 0 && d != 0.0
    ensures Sum(Standardized(s, Mean(s), d)) == 0.0
  {
    SumOfStandardized(s, Mean(s), d);
    DivTimes(Sum(s), |s| as real);
    ZeroFactor(Sum(Standardized(s, Mean(s), d)), d);
  }

  lemma {:induction false} GroupSumNonNegative(xs: seq<real>, p: seq<int>, g: int)
    requires |xs| == |p| && NonNegative(xs)
    ensures 0.0 <= GroupSum(xs, p, g)
  {
    if xs != [] {
      GroupSumNonNegative(xs[1..], p[1..], g);
    }
  }

  /** The mean of a group of non-negative values is non-negative. */
  lemma GroupMeanNonNegative(xs: seq<real>, p: seq<int>, g: int)
    requires |xs| == |p| && Count(p, g) > 0 && NonNegative(xs)
    ensures 0.0 <= GroupMean(xs, p, g)
  {
    GroupSumNonNegative(xs, p, g);
    GroupSizeIsCount(p, g);
    QuotientNonNegative(GroupSum(xs, p, g), GroupSize(p, g));
  }

  /** If ys holds the squared deviations of xs from the group mean on the rows of
      group g, the group mean of ys is the variance of the group. */
  lemma GroupMeanOfSquaredDeviations(xs: seq<real>, ys: seq<real>, p: seq<int>, g: int)
    requires |xs| == |ys| == |p| && Count(p, g) > 0
    requires forall i | 0 <= i < |p| && p[i] == g :: ys[i] == Square(xs[i] - GroupMean(xs, p, g))
    ensures GroupMean(ys, p, g) == Mean(SquaredDeviations(Members(xs, p, g), GroupMean(xs, p, g)))
  {
    MembersOfSquaredDeviations(xs, ys, p, g, GroupMean(xs, p, g));
    GroupMeanIsMean(ys, p, g);
  }

  /** If ys holds (xs - mean) / d on the rows of group g, the group sum of ys is zero. */
  lemma StandardizedGroupSumsToZero(xs: seq<real>, ys: seq<real>, p: seq<int>, g: int, d: real)
    requires |xs| == |ys| == |p| && Count(p, g) > 0 && d != 0.0
    requires forall i | 0 <= i < |p| && p[i] == g :: ys[i] == Standardize(xs[i], GroupMean(xs, p, g), d)
    ensures GroupSum(ys, p, g) == 0.0
  {
    MembersOfStandardized(xs, ys, p, g, GroupMean(xs, p, g), d);
    GroupSumOfMembers(ys, p, g);
    GroupMeanIsMean(xs, p, g);
    StandardizedAboutMeanSumsToZero(Members(xs, p, g), d);
  }

  /** When every row carries label g, group g is the whole column. */
  lemma {:induction false} AllInOneGroup(xs: seq<real>, p: seq<int>, g: int)
    requires |xs| == |p|
    requires forall i | 0 <= i < |p| :: p[i] == g
    ensures Members(xs, p, g) == xs
  {
    if xs != [] {
      AllInOneGroup(xs[1..], p[1..], g);
    }
  }

  /** Two partitions that put the same rows in group g and in group h give those
      groups the same sum, size and count. */
  lemma {:induction false} SameRows(xs: seq<real>, p: seq<int>, g: int, q: seq<int>, h: int)
    requires |xs| == |p| == |q|
    requires forall i | 0 <= i < |p| :: p[i] == g <==> q[i] == h
    ensures GroupSum(xs, p, g) == GroupSum(xs, q, h)
    ensures GroupSize(p, g) == GroupSize(q, h)
    ensures Count(p, g) == Count(q, h)
  {
    if xs != [] {
      assert p[0] == g <==> q[0] == h;
      forall i | 0 <= i < |p| - 1 ensures p[1..][i] == g <==> q[1..][i] == h {
        assert p[i + 1] == g <==> q[i + 1] == h;
      }
      SameRows(xs[1..], p[1..], g, q[1..], h);
    }
  }

  /** A group of exactly one row consists of that row's value. */
  lemma SingletonGroup(xs: seq<real>, p: seq<int>, g: int, i: nat)
    requires |xs| == |p| && i < |p| && p[i] == g && Count(p, g) == 1
    ensures Members(xs, p, g) == [xs[i]]
  {
    MembersAreGroupValues(xs, p, g);
    assert xs[i] in Members(xs, p, g);
  }

  /** The mean of a group of exactly one row is that row's value. */
  lemma SingletonGroupMean(xs: seq<real>, p: seq<int>, g: int, i: nat)
    requires |xs| == |p| && i < |p| && p[i] == g && Count(p, g) == 1
    ensures GroupMean(xs, p, g) == xs[i]
  {
    SingletonGroup(xs, p, g, i);
    GroupMeanIsMean(xs, p, g);
    assert Sum([xs[i]]) == xs[i];
  }

  /** The sum of the group sums of groups 0..k-1. */
  function Tally(xs: seq<real>, p: seq<int>, k: nat): real
    requires |xs| == |p|
  {
    if k == 0 then 0.0 else Tally(xs, p, k - 1) + GroupSum(xs, p, k - 1)
  }

  /** What a row with value x and label l contributes to the groups 0..k-1. */
  function Share(x: real, l: int, k: nat): real {
    if 0 <= l < k then x else 0.0
  }

  lemma {:induction false} TallyStep(xs: seq<real>, p: seq<int>, k: nat)
    requires |xs| == |p| && |xs| > 0
    ensures Tally(xs, p, k) == Share(xs[0], p[0], k) + Tally(xs[1..], p[1..], k)
  {
    if k > 0 {
      TallyStep(xs, p, k - 1);
    }
  }

  lemma {:induction false} TallyOfEmpty(xs: seq<real>, p: seq<int>, k: nat)
    requires |xs| == |p| == 0
    ensures Tally(xs, p, k) == 0.0
  {
    if k > 0 {
      TallyOfEmpty(xs, p, k - 1);
    }
  }

  /** When every label lies in [0, k) the k group sums add up to the column total:
      every row is counted in exactly one group. */
  lemma {:induction false} TallyIsTotal(xs: seq<real>, p: seq<int>, k: nat)
    requires |xs| == |p|
    requires forall i | 0 <= i < |p| :: 0 <= p[i] < k
    ensures Tally(xs, p, k) == Sum(xs)
  {
    if xs == [] {
      TallyOfEmpty(xs, p, k);
    } else {
      TallyStep(xs, p, k);
      TallyIsTotal(xs[1..], p[1..], k);
    }
  }

  // Small facts of real arithmetic, stated apart so that the proofs above need no
  // non-linear reasoning in a large context.

  lemma DivTimes(a: real, c: real)
    requires c != 0.0
    ensures a / c * c == a
  {
  }

  lemma SquareNonNegative(x: real)
    ensures 0.0 <= Square(x)
  {
  }

  lemma QuotientNonNegative(a: real, c: real)
    requires 0.0 <= a && 0.0 < c
    ensures 0.0 <= a / c
  {
  }

  lemma ZeroFactor(a: real, d: real)
    requires d != 0.0 && a * d == 0.0
    ensures a == 0.0
  {
  }

  lemma AffineStep(y': real, y: real, a: real, x': real, x: real, b: real, c: real, n': real, n: real, d: real)
    requires y' == y + a && x' == x + b && n' == n + 1.0
    requires y * d == x - c * n && d != 0.0 && a == (b - c) / d
    ensures y' * d == x' - c * n'
  {
  }
}
