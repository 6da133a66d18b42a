# Two-sample dispersion tests in Dafny

This project models `code/statistical_tests.py`, which holds three stateless tests of
whether two independent samples differ in dispersion:

- `f_test`: the classical F-test. Its statistic is the ratio Sx² / Sy² of the unbiased
  sample variances. Its one-sided p-value comes from the F-distribution with nx − 1 and
  ny − 1 degrees of freedom.
- `f1_test`: the same statistic with corrected degrees of freedom rx − 1 and ry − 1,
  where r = 2n / (kurtosis ratio − (n − 3)/(n − 1)). The kurtosis ratio is the pooled
  fourth central moment over the squared pooled variance.
- `count_five`: the Count Five test. Each sample is centred on its mean or median. The
  test counts how many absolute deviations of one sample exceed the largest absolute
  deviation of the other.

The model is written in two modules of pure functions and lemmas, since the source
is pure.

- `Descriptive` (`descriptive.dfy`) holds the numpy reductions the tests call: `np.sum`,
  `np.mean`, `np.median` (over a sorted copy, averaging the two middle elements for an
  even length), `np.var(…, ddof=1)`, `np.max`, and the `np.sum(np.where(…, 1, 0))`
  count.
- `StatisticalTests` (`statistical_tests.dfy`) holds the three tests.

Samples are sequences of exact reals. The F-distribution's cumulative distribution
function (`scipy.stats.f.cdf`) is a parameter `cdf: (real, real, real) -> Probability`
whose results lie in [0, 1]. Some lemmas also assume `ReciprocalSymmetric(cdf)`:
P(F(d1, d2) < f) + P(F(d2, d1) < 1/f) = 1 for f > 0 and positive degrees of freedom.
The F-distribution has this property. The lemmas that assume it are `SwappedTails`,
`FTestSwap` and `F1TestSwap`, which swap the two samples, and `FTestIdentical`, where it
gives cdf(1, d, d) = 1/2.

## Where the code and its documentation differ

The model follows the code in each case.

- `f1_test` degrees of freedom. Its docstring (line 58) says the F-distribution has rx
  and ry degrees of freedom. At kurtosis ratio 3, rx = nx − 1, which is what `f_test`
  uses. But the code passes `rx-1` and `ry-1` to the cdf (line 80). At ratio 3 that is
  nx − 2 and ny − 2. `F1TestUnderNormality` proves this form.
- `f_test` degrees of freedom. Its docstring (line 23) says nx and ny degrees of
  freedom. The code passes nx − 1 and ny − 1 (line 34).
- `count_five` on an empty sample. The code calls `np.max` over that sample's
  deviations (lines 127-128), which raises a ValueError. The model returns
  `Failure(EmptyReduction)`.

## Model

| member | source | states |
|---|---|---|
| `Descriptive.Sum` | code/statistical_tests.py:71-72 | Plain definition of `np.sum` over a one-dimensional array. Its properties are stated by `SumBounds` and `FirstCentralSum` |
| `Descriptive.SumBounds` | code/statistical_tests.py:71-72 | If every element lies in [lo, hi], the sum lies in [n·lo, n·hi] |
| `Descriptive.FirstCentralSum` | code/statistical_tests.py:71-72 | The sum of the deviations from c is the sum minus n·c |
| `Descriptive.Mean` | code/statistical_tests.py:67-68 | `np.mean`: n copies of the mean add up to the sum |
| `Descriptive.CentralSum` | code/statistical_tests.py:71-72 | An even central power sum is non-negative, and it is zero exactly when every element equals the centre |
| `Descriptive.CentralSumQuadratic` | code/statistical_tests.py:71-72 | For every t, Σ((s_i − c)² − t)² ≥ 0, written out in the second and fourth central power sums: S4 − 2t·S2 + n·t² ≥ 0 |
| `Descriptive.MeanDeviationsCancel` | code/statistical_tests.py:67-68 | The deviations of a sample from its `np.mean` sum to zero |
| `Descriptive.MeanWithinRange` | code/statistical_tests.py:115-116 | The mean used as a centring value lies between the sample's smallest and largest element |
| `Descriptive.SampleVar` | code/statistical_tests.py:27-28 | `np.var(…, ddof=1)` (denominator n − 1) is non-negative, and it is zero exactly when the sample is constant |
| `Descriptive.SampleVarScaled` | code/statistical_tests.py:73 | (n − 1) times `np.var(…, ddof=1)` is the second central power sum about the mean, the term the pooled variance adds up |
| `Descriptive.MaxOf` | code/statistical_tests.py:127-128 | `np.max` is an element of the array and is at least every element |
| `Descriptive.Count` | code/statistical_tests.py:127-128 | The `np.sum(np.where(…, 1, 0))` count is at most the length. It is positive iff some element passes, and equals the length iff all pass |
| `Descriptive.CountPermutation` | code/statistical_tests.py:118-119 | Counting is the same over any reordering of the sample, such as the sorted copy `np.median` uses |
| `Descriptive.Sort` | code/statistical_tests.py:118-119 | The copy the median is taken from is sorted and is a permutation of the sample |
| `Descriptive.MiddleBetween` | code/statistical_tests.py:118-119 | In a sorted copy, the `np.median` value lies between the lower and the upper middle element |
| `Descriptive.Median` | code/statistical_tests.py:118-119 | At least half of the elements are at most the `np.median` value, and at least half are at least it |
| `Descriptive.MedianWithinRange` | code/statistical_tests.py:118-119 | The median lies between the sample's smallest and largest element |
| `StatisticalTests.FValue` | code/statistical_tests.py:27-29 | f_value times Sy² is Sx². It is non-negative, and zero exactly when x is constant. It is defined only when Sy² ≠ 0 |
| `StatisticalTests.FValueSwap` | code/statistical_tests.py:27-29 | Swapping the samples gives the reciprocal f_value |
| `StatisticalTests.FValueIdentical` | code/statistical_tests.py:27-29 | A sample compared with itself has f_value 1 |
| `StatisticalTests.PValue` | code/statistical_tests.py:38 | The tail choice (`1 - cdf` or `cdf`) gives a value in [0, 1] for a cdf value in [0, 1] |
| `StatisticalTests.PValueTails` | code/statistical_tests.py:38 | The two tails for the same cdf value add up to 1 |
| `StatisticalTests.FTest` | code/statistical_tests.py:27-39 | Returns f_value = Sx²/Sy² and a p-value in [0, 1]. The p-value is the chosen tail of the cdf at f_value with nx − 1 and ny − 1 degrees of freedom |
| `StatisticalTests.SwappedTails` | code/statistical_tests.py:34-38 | Under the F-distribution's reciprocal symmetry, the other tail of the cdf at 1/f with the degrees of freedom swapped gives the same p-value |
| `StatisticalTests.FTestAlternatives` | code/statistical_tests.py:34-38 | The p-values for the two alternatives add up to 1 |
| `StatisticalTests.FTestSwap` | code/statistical_tests.py:27-38 | Swapping the samples and flipping the alternative gives the reciprocal f_value and the same p-value |
| `StatisticalTests.FTestIdentical` | code/statistical_tests.py:27-38 | Identical samples give f_value 1 and p-value 1/2 under either alternative |
| `StatisticalTests.FourthMoment` | code/statistical_tests.py:67-72 | The pooled fourth moment is non-negative, and zero exactly when both samples are constant |
| `StatisticalTests.PooledVar` | code/statistical_tests.py:73 | The pooled variance is non-negative, and zero exactly when both samples are constant |
| `StatisticalTests.PooledMomentsSymmetric` | code/statistical_tests.py:71-73 | The pooled moment and the pooled variance do not depend on the order of the samples |
| `StatisticalTests.PooledMomentBound` | code/statistical_tests.py:67-73 | fourth_moment ≥ pooled_var² for any two samples of length ≥ 2 (Cauchy–Schwarz over the squared deviations of both samples) |
| `StatisticalTests.MomentRatio` | code/statistical_tests.py:76-77 | m / v² for v > 0 is at least 1 whenever m ≥ v² |
| `StatisticalTests.KurtosisAtLeastOne` | code/statistical_tests.py:67-77 | fourth_moment / pooled_var² is at least 1 whenever pooled_var ≠ 0 |
| `StatisticalTests.KurtosisRatio` | code/statistical_tests.py:76-77 | The kurtosis ratio fourth_moment / pooled_var² is at least 1, so it always exceeds the offset (n − 3)/(n − 1) |
| `StatisticalTests.KurtosisRatioSymmetric` | code/statistical_tests.py:71-77 | The pooled variance and the kurtosis ratio do not depend on the order of the samples |
| `StatisticalTests.KurtosisOffset` | code/statistical_tests.py:76-77 | (n − 3)/(n − 1) is below 1 for n ≥ 2 |
| `StatisticalTests.AdjustedDf` | code/statistical_tests.py:76-77 | rx (and ry) is never zero. It is positive exactly when the kurtosis ratio exceeds (n − 3)/(n − 1) |
| `StatisticalTests.AdjustedDfUnderNormality` | code/statistical_tests.py:76-77 | At kurtosis ratio 3, rx = nx − 1 |
| `StatisticalTests.AdjustedDfBounds` | code/statistical_tests.py:76-77 | For any kurtosis ratio ≥ 1, rx lies in (0, n(n − 1)] |
| `StatisticalTests.AdjustedDfDecreasing` | code/statistical_tests.py:76-77 | Above the offset, a larger kurtosis ratio gives strictly fewer, still positive, degrees of freedom |
| `StatisticalTests.F1Test` | code/statistical_tests.py:61-85 | The F1 p-value lies in [0, 1]. It is the chosen tail of the cdf at f_value = Sx²/Sy² with rx − 1 and ry − 1 degrees of freedom, where rx and ry are the corrected degrees of freedom at the pooled kurtosis ratio |
| `StatisticalTests.F1DegreesOfFreedom` | code/statistical_tests.py:62-77 | For any samples with nx, ny ≥ 2 and Sy² ≠ 0, rx and ry are defined and lie in (0, nx(nx − 1)] and (0, ny(ny − 1)] |
| `StatisticalTests.F1TestUnderNormality` | code/statistical_tests.py:73-84 | At kurtosis ratio 3, the F1 p-value is the tail of the cdf at f_value with nx − 2 and ny − 2 degrees of freedom |
| `StatisticalTests.F1TestAlternatives` | code/statistical_tests.py:80-84 | The F1 p-values for the two alternatives add up to 1 |
| `StatisticalTests.F1TestSwap` | code/statistical_tests.py:62-84 | If rx, ry > 1, swapping the samples and flipping the alternative leaves the kurtosis ratio and the F1 p-value unchanged |
| `StatisticalTests.ValidCenter` | code/statistical_tests.py:112 | Plain definition of the accepted centres, "mean" and "median". `CountFive` states the error it leads to |
| `StatisticalTests.Centering` | code/statistical_tests.py:114-119 | The centring value, the mean for "mean" and the median otherwise, lies between the sample's smallest and largest element |
| `StatisticalTests.AbsDeviations` | code/statistical_tests.py:122-123 | There is one deviation per element, and the i-th is the absolute value of s[i] − c |
| `StatisticalTests.MaxDeviation` | code/statistical_tests.py:127-128 | The `np.max` of the deviations is non-negative. It is the deviation of some element, and no element deviates further |
| `StatisticalTests.CountExtremes` | code/statistical_tests.py:127-128 | C_x ≤ nx and C_y ≤ ny. C_x > 0 iff max x-deviation > max y-deviation, and likewise for C_y. At most one count is non-zero |
| `StatisticalTests.CountFive` | code/statistical_tests.py:112-129 | Fails with InvalidCenter exactly when center is neither "mean" nor "median". Otherwise it fails with EmptyReduction exactly when a sample is empty. On success the counts are bounded and mutually exclusive, and each is positive iff that sample's largest deviation is strictly larger |
| `StatisticalTests.CountFiveSwap` | code/statistical_tests.py:114-128 | Swapping the samples swaps the counts and keeps any error |
| `StatisticalTests.CountFiveAllExtreme` | code/statistical_tests.py:114-128 | If every x-deviation exceeds the largest y-deviation, the counts are (nx, 0) |
| `StatisticalTests.CountFiveIdentical` | code/statistical_tests.py:114-128 | A sample compared with itself gives counts (0, 0) |

## Left out

- `scipy.stats.f.cdf` (lines 34, 80) is foreign numerical code. It is a parameter
  returning a value in [0, 1]; the F-distribution itself is not modelled.
- Floating point: rounding, NaN and infinity propagation. Numbers are exact reals, so
  statements such as "f_value = 1" hold exactly here, where the code has them only up to
  rounding.
- Degenerate inputs that the code lets through to NaN, infinity or a division by zero
  are preconditions here. These inputs are a sample shorter than 2 and Sy² = 0.
- FTest: requires nx, ny ≥ 2 and Sy² ≠ 0, where the code would return NaN or infinity.
- FValue: requires nx, ny ≥ 2 and Sy² ≠ 0, where the code would return NaN or infinity.
- F1Test: requires nx, ny ≥ 2 and Sy² ≠ 0, like FTest. pooled_var ≠ 0 follows from
  Sy² ≠ 0. The denominators of rx and ry need no requirement: the kurtosis ratio is at
  least 1 (`PooledMomentBound`, `KurtosisRatio`), above (n − 3)/(n − 1) < 1, so rx and
  ry always lie in (0, n(n − 1)] (`AdjustedDfBounds`, `F1DegreesOfFreedom`). They can
  still be at most 1, for example x = [0, 1] and y = nine zeros followed by 100 give
  rx ≈ 0.37. The code then passes non-positive degrees of freedom rx − 1 to the cdf
  and gets NaN, while the model's cdf parameter returns some value in [0, 1].
- F1TestAlternatives: the two p-values add up to 1 for every input in the model. When
  rx ≤ 1 or ry ≤ 1 the code's p-values are both NaN, so the sum holds only where the
  degrees of freedom passed to the cdf are positive.
- F1TestSwap: requires rx, ry > 1 because the reciprocal symmetry of the cdf is only
  stated for positive degrees of freedom.
- Conversion between lists and numpy arrays, broadcasting, and non-string or unhashable
  `center` arguments are left out. The model takes `center` as a string.
