# Drift detector model

A Dafny model of the drift-detection engine of Sentinel (`DriftDetector` in
`src/drift_detection/detector.py`). The engine compares a reference dataset
with a production dataset feature by feature:

- it splits the reference columns into categorical and continuous features;
- each continuous feature gets a two-sample Kolmogorov–Smirnov test and a
  Population Stability Index (PSI) over percentile bins of the reference;
- each categorical feature gets a Chi-square test of independence on a 2×K
  table of category counts;
- the verdicts are gathered into one report: a detail entry per feature,
  the ordered list of drifted features, and an overall drift flag.

Modules, one file each:

- `collections.dfy` (`Collections`): `Option`/`Result`, element sets,
  counting, positions, sums.
- `frames.dfy` (`Frames`): datasets as named columns of cells
  (`Missing | Number | Text`) with a storage type; `dropna`, `nunique`.
- `psi.dfy` (`Psi`): `np.unique`, `np.linspace`, `np.histogram` bins,
  shares with zero clamping, the PSI sum, and the percentile breakpoints.
- `contingency.dfy` (`Contingency`): `value_counts` and the contingency
  table of `chi_square_test`.
- `report.dfy` (`Report`): the result records and the aggregation policy of
  `detect_drift` as a fold over the visited features.
- `detector.dfy` (`Detector`): feature classification, the class
  `DriftDetector` with its constructor, the three tests and `detect_drift`.

The calls into scipy and numpy are parameters held in a `Numerics` value:

- `ks` for `ks_2samp`;
- `percentile` for `np.percentile` of one rank;
- `ln` for `np.log`;
- `chi2` for `chi2_contingency`, given the table as a map from category to
  its two counts.

Lemmas that need a property of these routines take it as a premise:
`LogSign` (the signs of a logarithm), `PercentileLaws` (rank 0 is the
minimum, rank 100 the maximum, every rank lies between them) and
`PercentileSymmetric` (a percentile ignores the order of the sample).

Each failing library call or key lookup is an error of that feature, and the
first one aborts `detect_drift`, as the raised exception does:

- `MissingColumn`: the feature is not a column of a dataset; the reference
  dataset is read first;
- `NonNumeric`: a continuous feature holds a non-numeric value;
- `EmptySample`: `ks_2samp` with an empty side, or `np.percentile` with an
  empty reference;
- `DegenerateTable`: `chi2_contingency` on a table with a zero marginal
  (which happens exactly when one side is empty).

Where the system's design description and the code disagree, the model
follows the code:

- When all reference values are equal, the description asks for a single
  effective bin. In the code `np.unique` leaves one breakpoint, and
  `np.histogram` then has zero bins, so the PSI is the empty sum 0.0.
- The description asks that every feature is evaluated and that failures
  are isolated per feature. The code raises on the first failing test, so
  `detect_drift` produces no report.
- The description asks that invalid settings be rejected at construction.
  The code checks none, so the constructor has no precondition.

## Model

| member | source | states |
|---|---|---|
| Frames.DropMissing | src/drift_detection/detector.py:49-50 | no missing cell remains, every other value keeps its number of occurrences, the length drops by the number of missing cells, and a single cell is kept exactly when it is not missing |
| Frames.DropMissingAppend | src/drift_detection/detector.py:49-50 | the survivors of two stretches come in the stretches' order, which with the single-cell case fixes the order of the result |
| Frames.Lookup | src/drift_detection/detector.py:49-50 | `frame[name]` is the column held under the name, absent (the key error) exactly when the name has no data |
| Frames.DistinctValues | src/drift_detection/detector.py:43 | definition: `nunique()`, the number of distinct non-missing values; see Frames.DistinctValuesZero |
| Frames.DistinctValuesZero | src/drift_detection/detector.py:43 | a column has no distinct value exactly when every cell is missing |
| Frames.Numbers | src/drift_detection/detector.py:52 | the cells read as numbers, present exactly when every cell is a number, each number being its cell's value |
| Detector.IsCategorical | src/drift_detection/detector.py:41-43 | definition: object or category storage, or fewer than 10 distinct non-missing values; used by Detector.CategoricalAmong |
| Detector.CategoricalAmong | src/drift_detection/detector.py:40-44 | a name is kept exactly when it is among the names and its reference column is categorical (object or category storage, or fewer than 10 distinct non-missing values) |
| Detector.CategoricalAmongOrder | src/drift_detection/detector.py:39-45 | the kept names appear in the order they have among the column names |
| Detector.CategoricalAmongDistinct | src/drift_detection/detector.py:39-45 | no column is listed twice when the names are distinct |
| Detector.AutoCategoricalColumns | src/drift_detection/detector.py:37-45 | for a well-formed dataset, auto-detection lists distinct columns, exactly the categorical ones, in column order |
| Detector.DetectCategoricalFeatures | src/drift_detection/detector.py:37-45 | the loop over the columns yields exactly the auto-detected categorical features |
| Detector.ListOfSet | src/drift_detection/detector.py:35 | `list(set)`: every element of the set once, in some order |
| Detector.DriftDetector.constructor | src/drift_detection/detector.py:16-35 | stores the datasets and settings, with no categorical list, significance level 0.05 and PSI threshold 0.25 by default; the categorical features are the explicit list verbatim, or the auto-detected ones when none is given; the continuous features are the other reference columns, each once |
| Detector.DriftDetector.Partition | src/drift_detection/detector.py:34-35 | every reference column is categorical or continuous and not both, and every continuous feature is a reference column |
| Detector.Samples | src/drift_detection/detector.py:49-50 | a missing column is an error, the reference dataset checked first; otherwise the non-missing values of each side, dropped independently |
| Detector.NumericSamples | src/drift_detection/detector.py:49-52 | the samples as numbers, an error exactly when some non-missing value is not a number |
| Detector.DriftDetector.KsTest | src/drift_detection/detector.py:47-59 | an error exactly when a sample is unavailable or empty; otherwise the library's statistic and p-value, with drift exactly when p < significance level |
| Psi.InsertUniqueDeduplicates | src/drift_detection/detector.py:67 | inserting a value into a strictly increasing sequence keeps it strictly increasing and adds exactly that value |
| Psi.Unique | src/drift_detection/detector.py:67 | definition: `np.unique` by sorted insertion without repeats; characterised by Psi.UniqueDeduplicates and Psi.UniqueCharacterized |
| Psi.UniqueDeduplicates | src/drift_detection/detector.py:67 | the breakpoints deduplicated: strictly increasing and with the same set of values |
| Psi.IncreasingDeterminedByElements | src/drift_detection/detector.py:67 | two strictly increasing sequences with the same values are equal |
| Psi.UniqueCharacterized | src/drift_detection/detector.py:67 | every strictly increasing sequence with the sample's values is `np.unique` of the sample |
| Psi.UniqueSpansRange | src/drift_detection/detector.py:66-67 | breakpoints holding the minimum and maximum and lying between them deduplicate (to any strictly increasing sequence of the same values) to a sequence from the minimum to the maximum, of length at least two exactly when the two differ |
| Psi.Linspace | src/drift_detection/detector.py:66 | `bins + 1` evenly spaced ranks, the i-th being 100·i/bins, from 0 to 100 and all within [0, 100] |
| Psi.Percentiles | src/drift_detection/detector.py:66 | one percentile per rank of `Linspace` |
| Psi.PercentilesSpan | src/drift_detection/detector.py:66 | under the percentile laws, the breakpoints include the sample minimum and maximum and lie between them |
| Psi.ReferenceBreakpoints | src/drift_detection/detector.py:66-73 | the deduplicated breakpoints run from the reference minimum to its maximum; there is a bin exactly when the reference is not constant, and then the reference counts sum to its size and its fractions to one |
| Psi.ReferenceHistogramComplete | src/drift_detection/detector.py:66-73 | the same conclusion for any strictly increasing deduplication of breakpoints that include the reference extremes and lie between them |
| Psi.Histogram | src/drift_detection/detector.py:69-70 | one count per bin, each the number of values in that bin (half-open, the last bin closed) |
| Psi.HistogramTotal | src/drift_detection/detector.py:69-70 | the counts sum to the number of values between the first and the last breakpoint |
| Psi.HistogramComplete | src/drift_detection/detector.py:69-70 | when the breakpoints span every value, the counts sum to the sample size |
| Psi.BinCountPermutation | src/drift_detection/detector.py:69-70 | a bin count does not depend on the order of the values |
| Psi.HistogramPermutation | src/drift_detection/detector.py:69-70 | the histogram does not depend on the order of the values |
| Psi.Fractions | src/drift_detection/detector.py:72-73 | each fraction is its count over the sample size: non-negative, zero exactly when its count is, at most one when the count is at most the sample size |
| Psi.FractionsSum | src/drift_detection/detector.py:72-73 | the fractions sum to the total count over the sample size |
| Psi.ClampZeros | src/drift_detection/detector.py:75-76 | a zero share becomes 0.0001, every other share is unchanged |
| Psi.Shares | src/drift_detection/detector.py:72-76 | every clamped share is positive and at most one; a non-zero share is count ÷ size, a zero one 0.0001 |
| Psi.PsiSum | src/drift_detection/detector.py:78-79 | definition: Σ (p − r)·ln(p / r) over the bins; its laws are Psi.PsiSumNonNegative and Psi.PsiSumSelf |
| Psi.PsiSumNonNegative | src/drift_detection/detector.py:78-79 | with positive shares and a logarithm of the usual signs, the PSI sum is never negative |
| Psi.PsiSumSelf | src/drift_detection/detector.py:78-79 | identical shares give a PSI sum of zero when ln(1) = 0 |
| Psi.PopulationStabilityIndex | src/drift_detection/detector.py:66-79 | NaN exactly when the production sample is empty and there is a bin; zero when there is no bin |
| Psi.PsiNonNegative | src/drift_detection/detector.py:72-79 | the index of two non-empty samples is never negative |
| Psi.PsiOfSameSampleIsZero | src/drift_detection/detector.py:72-79 | a sample compared with itself has index exactly zero |
| Psi.PsiPermutationInvariant | src/drift_detection/detector.py:61-79 | with an order-blind percentile, reordering either sample leaves the index unchanged |
| Detector.DriftDetector.CalculatePsi | src/drift_detection/detector.py:61-85 | an error exactly when a sample is unavailable or the reference is empty; otherwise the index over the deduplicated percentile breakpoints, with drift exactly when it is a number at or above the threshold |
| Detector.DriftDetector.PsiFiniteWhenKsSucceeds | src/drift_detection/detector.py:124-125 | a feature that passes the KS test has a PSI that is a number, so NaN never reaches the report |
| Detector.DriftDetector.PsiNeverNegative | src/drift_detection/detector.py:78-84 | a numeric PSI of a feature is never negative, given the signs of the logarithm |
| Detector.DriftDetector.UnchangedFeatureHasNoPsiDrift | src/drift_detection/detector.py:78-84 | a feature with the same values in both datasets has PSI 0 and, with a positive threshold, no PSI drift |
| Detector.DriftDetector.ReferenceSharesSumToOne | src/drift_detection/detector.py:66-73 | the breakpoints of a feature run from the reference minimum to its maximum; unless the reference is constant its counts sum to its size and its fractions to one |
| Contingency.Categories | src/drift_detection/detector.py:92 | a category is any value seen on either side |
| Contingency.ValueCounts | src/drift_detection/detector.py:94-95 | the keys are the sample's values and each maps to its number of occurrences |
| Contingency.ValueCountsGet | src/drift_detection/detector.py:100-101 | `counts.get(cat, 0)` is the category's number of occurrences, 0 when absent |
| Contingency.Transpose | src/drift_detection/detector.py:104 | two rows of one entry per pair, the first and the second components |
| Contingency.CategoryCounts | src/drift_detection/detector.py:94-102 | one entry per category of either side, holding its count on each side, never both zero |
| Contingency.BuildContingency | src/drift_detection/detector.py:92-104 | a 2-row table with one column per category of either side, each once, in some order, each cell its category's count on its side |
| Contingency.RowSums | src/drift_detection/detector.py:92-104 | each row sums to its non-missing sample size |
| Contingency.NoEmptyColumn | src/drift_detection/detector.py:92-104 | every column has a positive total |
| Contingency.ObservedIsCategoryCounts | src/drift_detection/detector.py:97-106 | whatever the column order, the table holds exactly each category's pair of counts |
| Contingency.DegenerateIffEmptySide | src/drift_detection/detector.py:104-106 | a row sums to zero exactly when a side is empty, and the table has no column exactly when both are |
| Contingency.ZeroMarginIffEmptySide | src/drift_detection/detector.py:106 | the table has a zero marginal exactly when a side is empty |
| Detector.DriftDetector.ChiSquare | src/drift_detection/detector.py:87-113 | an error exactly when a column is missing or a side is empty; otherwise the library's statistic and p-value of the category counts, drift exactly when p < significance level |
| Detector.DriftDetector.ChiSquareTest | src/drift_detection/detector.py:87-113 | the table-building method gives exactly that result, whatever order the categories come in |
| Detector.DriftDetector.ContinuousOutcome | src/drift_detection/detector.py:123-134 | fails exactly when the KS test fails; otherwise a continuous entry of the KS and PSI results with a numeric PSI, drifting exactly when p < significance level or PSI ≥ threshold |
| Detector.DriftDetector.CategoricalOutcome | src/drift_detection/detector.py:141-147 | fails exactly when the Chi-square test fails, with its error; otherwise a categorical entry of the Chi-square result, drifting exactly when p < significance level |
| Detector.DriftDetector.Outcome | src/drift_detection/detector.py:123-147 | definition: the comparison of a visit by its kind, ContinuousOutcome or CategoricalOutcome |
| Detector.DriftDetector.CompareContinuous | src/drift_detection/detector.py:124-134 | the loop body for one continuous feature gives exactly that entry |
| Detector.DriftDetector.CompareCategorical | src/drift_detection/detector.py:141-147 | the loop body for one categorical feature gives exactly that entry |
| Detector.DriftDetector.Traversal | src/drift_detection/detector.py:123-140 | the continuous features in order, then the categorical ones |
| Detector.DriftDetector.DetectDrift | src/drift_detection/detector.py:115-153 | the report the two loops build is the fold of the whole traversal, or the first error |
| Detector.DriftDetector.ContinuousPass | src/drift_detection/detector.py:117-139 | the first loop yields the fold of the continuous visits from the empty report, or the first error among them |
| Detector.DriftDetector.CategoricalPass | src/drift_detection/detector.py:141-151 | the second loop continues the report of the first with the fold of the categorical visits, or stops at the first error among them |
| Report.Record | src/drift_detection/detector.py:129-151 | definition: the update of the `results` dictionary for one feature; its properties are Report.RecordUpdates |
| Report.RecordUpdates | src/drift_detection/detector.py:129-151 | the detail is stored under the feature, every other entry is unchanged, the feature is appended exactly when it drifted, and the flag is raised when it drifted and never lowered |
| Report.AggregateFrom | src/drift_detection/detector.py:123-151 | definition: the loops continued from a given `results` value, stopping at the first error; its properties are Report.AggregateAppend, Report.AggregateStepOk and Report.AggregateStepErr |
| Report.Aggregate | src/drift_detection/detector.py:117-151 | definition: the same fold from the empty `results` (no flag, no list, no entries); its properties are Report.AggregateSucceeds and Report.AggregateReport |
| Report.AggregateAppend | src/drift_detection/detector.py:123-151 | folding two traversals in a row is folding the second from the report of the first, and an error of the first is final |
| Report.AggregateStepOk | src/drift_detection/detector.py:129-139 | a successful comparison records its detail in the report built so far |
| Report.AggregateStepErr | src/drift_detection/detector.py:124-125 | a failing comparison after a successful prefix is the outcome of the whole traversal |
| Report.AggregateAfterError | src/drift_detection/detector.py:123-141 | once a comparison fails, no later feature changes the outcome |
| Report.AggregateSucceeds | src/drift_detection/detector.py:123-141 | a report exactly when every comparison succeeds; otherwise the error of the first failing visit |
| Report.EveryVisitOfTwoPasses | src/drift_detection/detector.py:123-147 | every visit of the continuous pass and then the categorical pass succeeds exactly when each feature succeeds with its pass's comparison |
| Report.AggregateReport | src/drift_detection/detector.py:117-151 | the entries are the visited features, each holding its last visit's detail; the list is the drifting visits in order; the flag is raised exactly when the list is non-empty |
| Report.DriftedFeatures | src/drift_detection/detector.py:136-150 | a feature is listed exactly when some visit of it drifts, and the list is no longer than the traversal |
| Report.DriftedFeaturesSingle | src/drift_detection/detector.py:136-150 | a single visit is listed exactly when it drifts, which with Report.DriftedFeaturesAppend fixes the list and its order |
| Report.DriftedFeaturesAppend | src/drift_detection/detector.py:136-150 | the list of two traversals in a row is the first's list followed by the second's |
| Report.DriftedFeaturesCount | src/drift_detection/detector.py:136-150 | over visits of one kind, a drifting feature is listed once per occurrence in the feature list, and a non-drifting one never |
| Report.SecondPassListing | src/drift_detection/detector.py:140-151 | a feature visited only in the second pass is listed once per occurrence there when it drifts, and otherwise never |
| Report.DriftListFromEntries | src/drift_detection/detector.py:129-151 | when each visit's outcome is its feature's entry, a feature is listed exactly when its entry flags drift |
| Report.LastVisit | src/drift_detection/detector.py:129-143 | a visit of the feature in the traversal |
| Report.LastVisitIsLast | src/drift_detection/detector.py:129-143 | that visit is the last one: no later visit has the feature |
| Report.LastVisitAppend | src/drift_detection/detector.py:129-143 | a later visit of a feature overwrites an earlier one |
| Report.TraversalReport | src/drift_detection/detector.py:115-153 | categorical entries win over continuous ones, the list has the drifted continuous features and then the drifted categorical ones, and the flag is raised exactly when some feature drifted |
| Detector.DriftDetector.DetectDriftFails | src/drift_detection/detector.py:115-153 | `detect_drift` succeeds exactly when every feature's tests succeed, and otherwise fails with the first failing feature's error |
| Detector.DriftDetector.EveryVisitSucceeds | src/drift_detection/detector.py:123-147 | every visit succeeds exactly when every continuous feature passes the KS test and every categorical feature the Chi-square test |
| Detector.DriftDetector.ReportEntries | src/drift_detection/detector.py:129-147 | every reference column and categorical feature has an entry: the Chi-square result for a categorical feature; for a continuous one the KS and numeric PSI results, drifting exactly when p < significance level or PSI ≥ threshold |
| Detector.DriftDetector.ReportDriftList | src/drift_detection/detector.py:136-151 | the drift list is the drifted continuous features then the drifted categorical ones, exactly the features whose entry says drift, and the flag is raised exactly when it is non-empty |
| Detector.DriftDetector.RepeatedCategoricalListing | src/drift_detection/detector.py:140-151 | a categorical feature named k times is listed k times when it drifts, and not at all otherwise |
| Detector.DriftDetector.SameOutcomePerFeature | src/drift_detection/detector.py:129-147 | every visit of a feature gives the entry the report holds for it |
| Detector.DriftDetector.AutoDetectionCoversColumns | src/drift_detection/detector.py:29-45 | with auto-detection, every reference column has exactly one entry, categorical exactly when the column is |

## Left out

- The statistics and p-values of `ks_2samp` and `chi2_contingency` are parameters. Their floating-point numerics are not modelled.
- `chi2`: it receives the table as a map from category to its two counts. This assumes the statistic does not depend on the column order.
- `np.percentile` interpolation is a parameter, and `np.log` is a parameter too. Their laws enter only as premises of the lemmas that need them.
- Floating point: shares, percentile ranks and the PSI sum are exact real arithmetic. There is no rounding, and a NaN PSI is a separate value.
- `np.histogram` with a single breakpoint: this case is modelled as zero bins, following numpy's documented shape (one count fewer than the edges). The code does not itself decide it.
- Library error conditions are modelled from the libraries' documented rejections. These are an empty sample, an empty percentile input and a zero expected frequency. Each becomes an error result rather than a distinct exception type.
- A non-numeric value in a continuous feature is an error of that feature. What the libraries would do with it is not modelled.
- `warnings.filterwarnings` is a global side effect with no logic.
- `feature_details` is a Python dictionary that remembers insertion order: continuous features first, with a re-assigned key keeping its first position. The report's entries are a `map`, which has no order, so that order is not modelled.
- The constructor takes the numeric routines as its third parameter; the source's three defaulted parameters follow it with the same defaults.
- Set iteration order: `list(set - set)` and the loop over `all_categories` take some order, chosen nondeterministically.
- Duplicate column names cannot be represented: a dataset maps each name to one column.
- Storage types other than object, category, int64, float64 and bool are not modelled.
- `bins` is a natural number. A negative bin count is outside the model.
- The `'test'` and `'type'` strings of the result dictionaries are represented by the datatypes' constructors.
- The dashboard (`src/dashboard.py`), the HTTP service (`src/api/main.py`) and the scripts (`scripts/`) are not part of this model. They hold I/O, presentation and data generation, not engine logic.
