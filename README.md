# h-nne partitioned aggregation, modelled in Dafny

h-nne builds a hierarchy of clusterings and projects them into a low-dimensional
embedding. At each level it summarises the points of every cluster: their mean, their
standard deviation, the largest norm among them, and their values normalised by the
cluster's own mean and spread. The file `hnne/cool_functions.py` does this for an
n-by-f data matrix and a partition (one integer label per row). It does not loop over
groups. It builds a sparse 0/1 indicator matrix from the partition and multiplies by it.

This project models the five functions of that file over exact reals:

- `cool_mean` gives the k-by-f matrix of group means.
- `cool_max` gives the k group maxima of a non-negative vector.
- `cool_max_radius` gives the k group maxima of the row norms.
- `cool_std` gives the k-by-f matrix of square roots of group means of `(data - means)^2`, plus epsilon.
- `cool_normalize` gives the n-by-f matrix `(data - mean of row's group) / (std of row's group)`.

Each function is written the way the source computes it: `np.unique` with counts, the
indicator product `umat.T @ data`, division by `nf`, the masked rows of
`umat * spdiags(arr)` and indexing by `partition`. Each is then proved equal to a plain
reference definition in module `Groups`. The reference says "sum, count, maximum or
spread of the values of the rows labelled g", defined by recursion over the rows.

Files:

- `partition.dfy` (module `Partition`) models `np.unique` with counts, the number of
  groups k, the indicator matrix, and the precondition that every label lies in [0, k).
- `arrays.dfy` (module `Arrays`) holds dense matrices, columns, element-wise squared
  differences, row norms, indexing `m[partition]`, and what the model needs of the
  square root.
- `groups.dfy` (module `Groups`) holds the reference per-group sum, size, mean,
  maximum and standard deviation, with their arithmetic lemmas.
- `cool_functions.dfy` (module `CoolFunctions`) holds the five functions and the
  properties proved about them.

Two points where the documentation and the code differ; the model follows the code:

- The labels are used directly as column indices of a matrix with `len(np.unique(partition))`
  columns (`hnne/cool_functions.py:18`, and as row indices at line 36). So the code works
  only when the labels are exactly 0, 1, ..., k-1. It does not re-rank arbitrary label
  values. The model makes this the precondition `WellLabelled`.
  `Partition.LabelsAreRanks` proves it equivalent to `np.unique` returning 0, ..., k-1.
- The docstring of `cool_std` (lines 69-71) promises an n-by-f result. Line 73
  returns one row per group, k-by-f. `cool_normalize` relies on that when it indexes
  the result with `[partition]` (line 88). `CoolFunctions.CoolStd` is k-by-f.

## Model

| member | source | states |
|---|---|---|
| Partition.Unique | hnne/cool_functions.py:17 | `np.unique(partition)` is strictly increasing and holds exactly the labels that occur |
| Partition.UniqueCounts | hnne/cool_functions.py:17 | the counts `nf` have one entry per distinct label; entry j is the number of rows carrying the j-th smallest label, so it is positive |
| Partition.LabelsAreRanks | hnne/cool_functions.py:17-18 | every label is a valid column index of the n-by-k indicator matrix exactly when `np.unique` returns 0, 1, ..., k-1 |
| Partition.UniqueIsIdentity | hnne/cool_functions.py:17-18 | under that precondition the j-th smallest label is j |
| Partition.ClassesAreLabels | hnne/cool_functions.py:17-19 | under the precondition every group 0..k-1 is non-empty and `nf[g]` is the size of group g, so the counts line up with the indicator columns |
| Partition.LabelSet | hnne/cool_functions.py:17-18 | under the precondition the labels that occur are exactly 0..k-1 |
| Partition.SingleLabel | hnne/cool_functions.py:17 | a non-empty partition of zeros has `np.unique` equal to [0], one group, and satisfies the precondition |
| Partition.NumClasses | hnne/cool_functions.py:17-18 | the number of groups k = `len(un)` is at most the number of rows, and at least one when there is a row |
| Partition.Indicator | hnne/cool_functions.py:18 | entry (i, g) of `umat` is 0 or 1, and it is 1 exactly when row i is labelled g |
| Partition.IndicatorColumn | hnne/cool_functions.py:18 | column g of `umat` has one 0/1 entry per row, 1 exactly at the rows labelled g |
| Partition.OneEntryPerRow | hnne/cool_functions.py:18 | each row of `umat` has a 1 in the column of its own label and 0 elsewhere |
| Partition.RelabelledPartition | hnne/cool_functions.py:17-18 | renaming the labels 0..k-1 of a well-labelled partition by a permutation gives a well-labelled partition with the same k, whose group sigma[g] holds exactly the rows of group g |
| Arrays.Norm | hnne/cool_functions.py:52 | the norm of a row is never negative and is zero for the zero row |
| Arrays.RowNorms | hnne/cool_functions.py:52 | `np.linalg.norm(data, axis=1)` has one non-negative entry per row, the norm of that row |
| Arrays.SquaredDifference | hnne/cool_functions.py:73 | `(data - means) ** 2` keeps the shape of data |
| Arrays.Broadcast | hnne/cool_functions.py:87-88 | `m[partition]` has one row per entry of the partition |
| Groups.GroupMax | hnne/cool_functions.py:22-31 | the reference group maximum is at least every value of the group and equals one of them |
| Groups.GroupStd | hnne/cool_functions.py:57-73 | the reference group standard deviation plus epsilon is never below epsilon |
| Groups.GroupMeanIsMean | hnne/cool_functions.py:5-14 | the group mean (group sum over group size) is the mean of the values of the rows labelled g |
| Groups.SameRows | hnne/cool_functions.py:17-19 | two partitions that put the same rows in group g and in group h give those groups the same sum, size and count |
| Groups.StandardizedGroupSumsToZero | hnne/cool_functions.py:90 | values centred on their group mean and divided by any non-zero scale sum to zero over the group |
| CoolFunctions.IndicatorProduct | hnne/cool_functions.py:18-19 | `umat.T @ data` is k-by-f and entry (g, j) is the sum of column j over the rows labelled g |
| CoolFunctions.DotWithIndicator | hnne/cool_functions.py:18-19 | the dot product of indicator column g with a column is the group-g sum of that column |
| CoolFunctions.IndicatorColumnSumsToCount | hnne/cool_functions.py:17-19 | column g of `umat` sums to the count `nf[g]`, which is what makes dividing by `nf` give means |
| CoolFunctions.DivideRows | hnne/cool_functions.py:19 | `s / nf[..., np.newaxis]` keeps the shape of s, and multiplying entry (g, j) back by the count `nf[g]` gives `s[g][j]` again |
| CoolFunctions.CoolMean | hnne/cool_functions.py:16-19 | `cool_mean` is k-by-f, every group is non-empty, and entry (g, j) is the mean of column j over the rows labelled g |
| CoolFunctions.CoolMeanTimesCountsIsTotal | hnne/cool_functions.py:17-19 | weighting each group mean by its count `nf[g]` and summing over the groups gives the column total over all rows |
| CoolFunctions.WeightedMeansAreTally | hnne/cool_functions.py:19 | group means times group sizes, summed over groups 0..k-1, give the sum of those groups' values |
| CoolFunctions.CoolMeanOfOneGroup | hnne/cool_functions.py:16-19 | with every label 0, `cool_mean` is the single row of column means |
| CoolFunctions.CoolMeanOfSingleton | hnne/cool_functions.py:18-19 | a group of one row has that row as its mean |
| CoolFunctions.CoolMeanOfRelabelled | hnne/cool_functions.py:16-19 | renaming the groups by a permutation sigma of 0..k-1 only reorders the rows of `cool_mean`: row sigma[g] of the new result is row g of the old one |
| CoolFunctions.MaskedRow | hnne/cool_functions.py:34-36 | row g of `umat * spdiags(arr)` has one entry per row of arr: `arr[i]` where row i is labelled g and 0 elsewhere |
| CoolFunctions.MaskedRowMax | hnne/cool_functions.py:34-37 | on non-negative values the maximum of row g of `umat * spdiags(arr)` is the group-g maximum |
| CoolFunctions.CoolMax | hnne/cool_functions.py:33-38 | `cool_max` has one entry per group and entry g is the maximum of arr over the rows labelled g |
| CoolFunctions.CoolMaxIsAttainedBound | hnne/cool_functions.py:33-38 | each entry of `cool_max` is at least every value of its group and equals the value of one of its rows |
| CoolFunctions.CoolMaxOfOneGroup | hnne/cool_functions.py:33-38 | with every label 0, `cool_max` is the single maximum of the whole array (before `np.squeeze`) |
| CoolFunctions.RefinedMaxBelow | hnne/cool_functions.py:33-38 | when partition q refines p, the `cool_max` entry of each row's fine group is at most the entry of its coarse group |
| CoolFunctions.RefinedMaxAttained | hnne/cool_functions.py:33-38 | when q refines p, every coarse group g contains a row whose fine group's `cool_max` entry equals the entry of g |
| CoolFunctions.NegativeValuesAreMasked | hnne/cool_functions.py:23-37 | with negative values the masked maximum is 0 while the true group maximum is -1, which is why non-negative input is required |
| CoolFunctions.CoolMaxRadius | hnne/cool_functions.py:52-54 | `cool_max_radius` has one entry per group; every row's norm is at most its group's entry, and each entry is the norm of a row of that group |
| CoolFunctions.NormMaxima | hnne/cool_functions.py:52-53 | `cool_max` of the row norms bounds every row's norm in its group and is attained by a row of the group |
| CoolFunctions.RootsPlus | hnne/cool_functions.py:73 | `np.sqrt(v) + epsilon` keeps the shape, and on a non-negative v every entry is at least epsilon |
| CoolFunctions.CoolStd | hnne/cool_functions.py:73 | `cool_std` is k-by-f with entry (g, j) the square root of the group-g mean of `(data - means)^2` in column j plus epsilon, never below epsilon, for any supplied means |
| CoolFunctions.MeanSquaredDifferenceNonNegative | hnne/cool_functions.py:73 | the group means of the squared differences are never negative, so the square root is taken of a non-negative number |
| CoolFunctions.CoolStdOfGroupMeans | hnne/cool_functions.py:87-88 | fed the broadcast group means, `cool_std` entry (g, j) is the population standard deviation of group g in column j plus epsilon |
| CoolFunctions.CoolStdOfGroup | hnne/cool_functions.py:87-88 | the same for one group and one column |
| CoolFunctions.GroupVarianceOfColumn | hnne/cool_functions.py:73 | with the group's own mean supplied for its rows, the group mean of `(data - means)^2` is the group's variance |
| CoolFunctions.CoolStdOfSingleton | hnne/cool_functions.py:57-73 | a group of one row whose supplied mean equals the row gets exactly epsilon |
| CoolFunctions.GroupMeans | hnne/cool_functions.py:87 | `cool_mean(data, partition)[partition]` keeps the shape of data and gives row i the group mean of its own label |
| CoolFunctions.GroupStds | hnne/cool_functions.py:88 | `cool_std(data, means, partition)[partition]` keeps the shape of data and gives row i the standard deviation of its own group plus epsilon |
| CoolFunctions.Normalized | hnne/cool_functions.py:90 | `(data - means) / stds` keeps the shape of data, and scaling entry (i, j) back by `stds[i][j]` and adding `means[i][j]` gives `data[i][j]` again |
| Groups.StandardizeRoundTrip | hnne/cool_functions.py:90 | a value centred on c and divided by a non-zero d, times d plus c, is the value again |
| CoolFunctions.StdsAreNonZero | hnne/cool_functions.py:88-90 | every divisor in line 90 is non-zero |
| CoolFunctions.CoolNormalize | hnne/cool_functions.py:87-90 | `cool_normalize` keeps the shape of data, and entry (i, j) is `data[i][j]` minus the mean of its group in column j, divided by that group's standard deviation plus epsilon |
| CoolFunctions.NormalizedGroupsSumToZero | hnne/cool_functions.py:87-90 | in every group and column the normalised values sum to zero |
| CoolFunctions.StandardizedColumnSumsToZero | hnne/cool_functions.py:90 | any matrix holding the group-standardised entries of data has group sums zero in each column |
| CoolFunctions.NormalizedMeansAreZero | hnne/cool_functions.py:87-90 | `cool_mean` of the normalised data is zero everywhere |
| CoolFunctions.ZeroSumsZeroMeans | hnne/cool_functions.py:19 | groups whose values sum to zero have `cool_mean` zero |

## Left out

- Floating point: arithmetic is on exact reals, so rounding in the sums and the float32 ones of the indicator matrix (lines 18 and 36) are not modelled.
- CoolFunctions.CoolStd: epsilon is a parameter instead of the default `1e-12` of line 57. `CoolFunctions.CoolNormalize` requires it to be positive. `cool_normalize` calls `cool_std` with the default.
- Arrays.Norm: the square root is a parameter `sqrt` that is only known to be non-negative on non-negative input and zero at zero. No other property of `np.sqrt` is used. `np.linalg.norm` is the square root of the sum of squares.
- CoolFunctions.CoolMax: the input must be non-negative. The docstring asks for positive values. With negative values and two or more groups, row g of the masked product also holds zeros at the rows of the other groups, so its maximum can be 0 instead of the group maximum, as `NegativeValuesAreMasked` shows. That case is a precondition, not modelled behaviour.
- CoolFunctions.CoolMax: on an empty input (n = 0) the sparse maximum of line 37 reduces over an axis of length 0 and raises an error. The model returns the empty sequence of group maxima instead. `CoolFunctions.CoolMaxRadius` inherits this.
- CoolFunctions.CoolMax: `np.squeeze` (line 38) turns a result with one group into a scalar. The model always returns a sequence of length k.
- Partition.WellLabelled: a label outside [0, k) makes the sparse constructor reject the indices (lines 18 and 36). The model requires labels in [0, k) instead of modelling that error.
- The sparse storage (`csr_matrix`, `spdiags`) is modelled only by the values the products compute, not by its layout.
- Arrays.Width: the number of columns of a matrix with no rows is 0 in the model. numpy keeps f for an empty n = 0 array.
- CoolFunctions.CoolStd: `means` must have exactly the shape of data. At line 73 numpy would also broadcast a `means` of shape `(f,)`, `(1, f)` or `(n, 1)`; the model does not cover those.
- CoolFunctions.CoolMean: the partition must have one label per row of data, and the same holds for the other four functions. A partition of another length is rejected by `csr_matrix` at lines 18 and 36; the model requires equal lengths instead of modelling that error.
- The rest of h-nne (the hierarchy construction, the projection and the `HNNE` estimator class), the benchmark script `scripts/run_benchmarks.py` and the deprecation tests `tests/test_deprecations.py` are not part of this model.
