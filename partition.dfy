/** The partition vector and what `np.unique` and the 0/1 indicator matrix make of it.

    A partition is one integer label per data row.  The aggregation functions take
    the number of groups k from `np.unique(partition)` and then use each label
    directly as a column index of a matrix with k columns, so they only work when
    every label lies in [0, k).  This module defines the label set, the counts
    and that precondition, and proves that under it the labels are exactly
    0, 1, ..., k-1 in the order `np.unique` reports them.
 */
module Partition {

  /** Number of rows whose label is g. */
  function Count(p: seq<int>, g: int): (c: nat)
    ensures c <= |p|
  {
    if p == [] then 0 else (if p[0] == g then 1 else 0) + Count(p[1..], g)
  }

  /** A label occurs exactly when its count is positive. */
  lemma {:induction false} CountPositive(p: seq<int>, g: int)
    ensures Count(p, g) > 0 <==> g in p
  {
    if p != [] {
      CountPositive(p[1..], g);
      assert p == [p[0]] + p[1..];
    }
  }

  predicate StrictlyIncreasing(s: seq<int>) {
    forall i, j | 0 <= i < j < |s| :: s[i] < s[j]
  }

  /** Inserts x into a strictly increasing sequence, keeping it strictly increasing
      (a value already present is not added twice). */
  function Insert(x: int, s: seq<int>): (r: seq<int>)
    requires StrictlyIncreasing(s)
    ensures StrictlyIncreasing(r)
    ensures forall y :: y in r <==> y == x || y in s
    ensures |r| <= |s| + 1
  {
    if s == [] || x < s[0] then [x] + s
    else if x == s[0] then s
    else
      var rest := Insert(x, s[1..]);
      assert forall i | 0 <= i < |rest| :: s[0] < rest[i] by {
        forall i | 0 <= i < |rest| ensures s[0] < rest[i] {
          assert rest[i] in rest;
        }
      }
      [s[0]] + rest
  }

  /** The distinct labels in ascending order: the first result of `np.unique`. */
  function Unique(p: seq<int>): (un: seq<int>)
    ensures StrictlyIncreasing(un)
    ensures forall y :: y in un <==> y in p
    ensures |un| <= |p|
  {
    if p == [] then [] else Insert(p[0], Unique(p[1..]))
  }

  /** The number of groups k, `len(np.unique(partition))`: at most the number of
      rows, and at least one when there is a row. */
  function NumClasses(p: seq<int>): (k: nat)
    ensures k <= |p|
    ensures |p| > 0 ==> k > 0
  {
    assert |p| > 0 ==> p[0] in Unique(p);
    |Unique(p)|
  }

  /** The counts `nf` of `np.unique(partition, return_counts=True)`: entry j is the
      number of rows carrying the j-th smallest label, so no entry is zero. */
  function UniqueCounts(p: seq<int>): (nf: seq<nat>)
    ensures |nf| == NumClasses(p)
    ensures forall j | 0 <= j < |nf| :: 0 < nf[j] && nf[j] == Count(p, Unique(p)[j])
  {
    forall j | 0 <= j < |Unique(p)| ensures Count(p, Unique(p)[j]) > 0 {
      assert Unique(p)[j] in Unique(p);
      CountPositive(p, Unique(p)[j]);
    }
    seq(|Unique(p)|, j requires 0 <= j < |Unique(p)| => Count(p, Unique(p)[j]))
  }

  /** The precondition of every aggregation: each label is a valid column index
      of the n-by-k indicator matrix, i.e. lies in [0, k). */
  predicate WellLabelled(p: seq<int>) {
    forall i | 0 <= i < |p| :: 0 <= p[i] < NumClasses(p)
  }

  lemma {:induction false} IncreasingGap(s: seq<int>, i: nat, j: nat)
    requires StrictlyIncreasing(s)
    requires i <= j < |s|
    ensures s[j] - s[i] >= j - i
  {
    if i < j {
      IncreasingGap(s, i, j - 1);
    }
  }

  /** Under the precondition the j-th smallest label is j. */
  lemma UniqueIsIdentity(p: seq<int>, g: int)
    requires WellLabelled(p) && 0 <= g < NumClasses(p)
    ensures Unique(p)[g] == g
  {
    var k := NumClasses(p);
    LabelBounds(p, 0);
    LabelBounds(p, k - 1);
    IncreasingGap(Unique(p), 0, g);
    IncreasingGap(Unique(p), g, k - 1);
  }

  /** Under the precondition every entry of `np.unique` is itself a label in [0, k). */
  lemma LabelBounds(p: seq<int>, j: int)
    requires WellLabelled(p) && 0 <= j < NumClasses(p)
    ensures 0 <= Unique(p)[j] < NumClasses(p)
  {
    assert Unique(p)[j] in Unique(p);
    var i :| 0 <= i < |p| && p[i] == Unique(p)[j];
  }

  /** s is 0, 1, ..., |s|-1. */
  predicate IsRange(s: seq<int>) {
    forall g | 0 <= g < |s| :: s[g] == g
  }

  /** A partition is well labelled exactly when `np.unique` returns 0, 1, ..., k-1,
      that is, when the label set is {0, ..., k-1}. */
  lemma LabelsAreRanks(p: seq<int>)
    ensures WellLabelled(p) <==> IsRange(Unique(p))
  {
    if WellLabelled(p) {
      forall g | 0 <= g < |Unique(p)| ensures Unique(p)[g] == g {
        UniqueIsIdentity(p, g);
      }
    }
    if IsRange(Unique(p)) {
      IdentityIsWellLabelled(p);
    }
  }

  lemma IdentityIsWellLabelled(p: seq<int>)
    requires IsRange(Unique(p))
    ensures WellLabelled(p)
  {
    assert NumClasses(p) == |Unique(p)|;
    forall i | 0 <= i < |p| ensures 0 <= p[i] < NumClasses(p) {
      assert p[i] in Unique(p);
      var j :| 0 <= j < |Unique(p)| && Unique(p)[j] == p[i];
      assert Unique(p)[j] == j;
    }
  }

  /** Group g of 0..k-1 is non-empty and `nf[g]` is its size. */
  lemma CountOfClass(p: seq<int>, g: int)
    requires WellLabelled(p) && 0 <= g < NumClasses(p)
    ensures 0 < UniqueCounts(p)[g] == Count(p, g)
  {
    UniqueIsIdentity(p, g);
    assert UniqueCounts(p)[g] == Count(p, Unique(p)[g]);
  }

  /** Under the precondition every group 0..k-1 has at least one row, and `nf[g]`
      is the size of group g, so the counts line up with the indicator columns. */
  lemma ClassesAreLabels(p: seq<int>)
    requires WellLabelled(p)
    ensures forall g | 0 <= g < NumClasses(p) :: 0 < UniqueCounts(p)[g] == Count(p, g)
  {
    forall g | 0 <= g < NumClasses(p) ensures 0 < UniqueCounts(p)[g] == Count(p, g) {
      CountOfClass(p, g);
    }
  }

  /** Under the precondition the labels that occur are exactly 0, 1, ..., k-1. */
  lemma LabelSet(p: seq<int>)
    requires WellLabelled(p)
    ensures forall g :: g in p <==> 0 <= g < NumClasses(p)
  {
    forall g | g in p ensures 0 <= g < NumClasses(p) {
      var i :| 0 <= i < |p| && p[i] == g;
    }
    forall g | 0 <= g < NumClasses(p) ensures g in p {
      CountOfClass(p, g);
      CountPositive(p, g);
    }
  }

  /** Under the precondition each of the groups 0..k-1 has at least one row. */
  lemma ClassesAreNonEmpty(p: seq<int>)
    requires WellLabelled(p)
    ensures forall g | 0 <= g < NumClasses(p) :: Count(p, g) > 0
  {
    forall g | 0 <= g < NumClasses(p) ensures Count(p, g) > 0 {
      CountOfClass(p, g);
    }
  }

  /** A non-empty partition whose every label is 0 has the single group 0. */
  lemma SingleLabel(p: seq<int>)
    requires |p| > 0 && forall i | 0 <= i < |p| :: p[i] == 0
    ensures Unique(p) == [0] && NumClasses(p) == 1 && WellLabelled(p)
  {
    assert p[0] in Unique(p);
    forall j | 0 <= j < |Unique(p)| ensures Unique(p)[j] == 0 {
      assert Unique(p)[j] in p;
    }
  }

  /** A strictly increasing sequence whose values are exactly 0..k-1 is 0, 1, ..., k-1. */
  lemma IncreasingOverRange(s: seq<int>, k: nat)
    requires StrictlyIncreasing(s) && forall y :: y in s <==> 0 <= y < k
    ensures |s| == k && IsRange(s)
  {
    forall j | 0 <= j < |s| ensures s[j] == j {
      IncreasingOverRangeAt(s, k, j);
    }
    if |s| > 0 {
      assert s[|s| - 1] in s;
    }
    if k > 0 {
      assert k - 1 in s;
      var m :| 0 <= m < |s| && s[m] == k - 1;
    }
  }

  lemma {:induction false} IncreasingOverRangeAt(s: seq<int>, k: nat, j: nat)
    requires StrictlyIncreasing(s) && forall y :: y in s <==> 0 <= y < k
    requires j < |s|
    ensures s[j] == j
  {
    assert s[j] in s;
    if j > 0 {
      IncreasingOverRangeAt(s, k, j - 1);
    } else {
      assert s[0] in s;
    }
    assert j in s;
    var m :| 0 <= m < |s| && s[m] == j;
  }

  /** No value occurs twice in s. */
  predicate Distinct(s: seq<int>) {
    forall x, y | 0 <= x < y < |s| :: s[x] != s[y]
  }

  /** Inserting a value not yet present makes the sequence one longer. */
  lemma {:induction false} InsertNew(x: int, s: seq<int>)
    requires StrictlyIncreasing(s) && x !in s
    ensures |Insert(x, s)| == |s| + 1
  {
    if s != [] && x > s[0] {
      InsertNew(x, s[1..]);
    }
  }

  /** `np.unique` of distinct values keeps all of them. */
  lemma {:induction false} DistinctUnique(s: seq<int>)
    requires Distinct(s)
    ensures |Unique(s)| == |s|
  {
    if s != [] {
      DistinctUnique(s[1..]);
      assert s[0] !in s[1..];
      InsertNew(s[0], Unique(s[1..]));
    }
  }

  /** sigma is a permutation of 0..|sigma|-1: distinct values, all in that range. */
  predicate IsPermutation(sigma: seq<int>) {
    Distinct(sigma) && forall x | 0 <= x < |sigma| :: 0 <= sigma[x] < |sigma|
  }

  /** A permutation of 0..k-1 takes every value in that range. */
  lemma PermutationIsOnto(sigma: seq<int>, y: int)
    requires IsPermutation(sigma) && 0 <= y < |sigma|
    ensures y in sigma
  {
    var u := Unique(sigma);
    var k := |sigma|;
    DistinctUnique(sigma);
    assert u[0] in sigma && u[k - 1] in sigma;
    IncreasingGap(u, 0, y);
    IncreasingGap(u, y, k - 1);
    assert u[y] == y && u[y] in u;
  }

  /** The partition with every label g renamed sigma[g]. */
  function Relabel(p: seq<int>, sigma: seq<int>): (q: seq<int>)
    requires forall i | 0 <= i < |p| :: 0 <= p[i] < |sigma|
    ensures |q| == |p|
    ensures forall i | 0 <= i < |p| :: q[i] == sigma[p[i]]
  {
    seq(|p|, i requires 0 <= i < |p| => sigma[p[i]])
  }

  /** Renaming the labels of a well-labelled partition by a permutation of 0..k-1
      gives a well-labelled partition with the same k, whose group sigma[g] holds
      exactly the rows of group g. */
  lemma RelabelledPartition(p: seq<int>, sigma: seq<int>)
    requires WellLabelled(p) && IsPermutation(sigma) && |sigma| == NumClasses(p)
    ensures WellLabelled(Relabel(p, sigma)) && NumClasses(Relabel(p, sigma)) == NumClasses(p)
    ensures forall i, g | 0 <= i < |p| && 0 <= g < NumClasses(p) :: Relabel(p, sigma)[i] == sigma[g] <==> p[i] == g
  {
    var q := Relabel(p, sigma);
    var k := NumClasses(p);
    LabelSet(p);
    forall y ensures y in Unique(q) <==> 0 <= y < k {
      if y in q {
        var i :| 0 <= i < |q| && q[i] == y;
      }
      if 0 <= y < k {
        PermutationIsOnto(sigma, y);
        var g :| 0 <= g < k && sigma[g] == y;
        assert g in p;
        var i :| 0 <= i < |p| && p[i] == g;
        assert q[i] == y;
      }
    }
    IncreasingOverRange(Unique(q), k);
  }

  /** Entry (i, g) of the n-by-k 0/1 matrix `umat`: 1 exactly when row i is labelled g. */
  function Indicator(p: seq<int>, i: nat, g: int): (e: real)
    requires i < |p|
    ensures e == 0.0 || e == 1.0
    ensures e == 1.0 <==> p[i] == g
  {
    if p[i] == g then 1.0 else 0.0
  }

  /** Column g of `umat` (row g of its transpose): a 0/1 vector with a 1 exactly at
      the rows labelled g. */
  function IndicatorColumn(p: seq<int>, g: int): (c: seq<real>)
    ensures |c| == |p|
    ensures forall i | 0 <= i < |c| :: c[i] == 0.0 || c[i] == 1.0
    ensures forall i | 0 <= i < |c| :: c[i] == 1.0 <==> p[i] == g
  {
    seq(|p|, i requires 0 <= i < |p| => Indicator(p, i, g))
  }

  /** Each row has exactly one non-zero indicator entry, in the column of its own label. */
  lemma OneEntryPerRow(p: seq<int>, i: nat)
    requires WellLabelled(p) && i < |p|
    ensures 0 <= p[i] < NumClasses(p) && Indicator(p, i, p[i]) == 1.0
    ensures forall g | g != p[i] :: Indicator(p, i, g) == 0.0
  {
  }
}
