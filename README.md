# Random-effects meta-analysis, modelled in Dafny

This project models `src/meta_analysis/utils.py`. That file is a pandas
pipeline for a random-effects meta-analysis of effect sizes. The effect
sizes are grouped by species (`specie_str`) and structure
(`structure_renamed`). The model uses exact `real` arithmetic. It has three
modules:

- `Tables` (`tables.dfy`): the table machinery the pipeline relies on.
  It provides column sums over a sequence of rows, grouping by the
  (species, structure) key, the per-key masked sum and count, row-wise
  mapping, and the facts that none of these depend on row order.
- `MetaAnalysis` (`meta_analysis.dfy`): one section per stage of
  `utils.py`. The stages are:
  - `compute_meta_data`, the per-study derived columns and the Hedges
    small-sample factor;
  - `compute_random_effects`, the first group-by;
  - `compute_random_variance`, Q and v0;
  - `zero_if_negative`, the in-place v0 floor;
  - `apply_corrections`, the per-study random-effects correction;
  - `calculate_constants`, the second group-by;
  - `I2` and `calculate_mean_se`, the pooled mean, its CI and I²;
  - `calculate_number_es`, the per-group study counts.
- `Pipeline` (`pipeline.dfy`): the stages chained as the analysis runs
  them. Its lemmas relate the stages to each other and to the input study
  table. It also works one small two-study example through to concrete
  values.

A study table is a `seq<Study>`. A group-level table is a
`map<(string, string), …>` keyed by (species, structure). Several divisions
in the source can be by zero:

- `v0` divides by a denominator that is 0 for a single-study group. The
  result is the NaN of 0/0, which the source keeps as "not computed", or
  an infinity when the numerator is not 0. The model has a datatype
  `V0 = Computed(x) | NotComputed | PlusInfinity | MinusInfinity` for it.
  `zero_if_negative` floors minus infinity to 0, as `num < 0` holds for it.
- The `fillna(0)` / `replace(inf, 0)` clean-up after `apply_corrections`
  becomes explicit branches that yield 0.
- `ES_mean` divides by a zero `sum_wi_corr`, and `I2` divides by a zero Q.
  The source does not clean either up. The model returns `None` for both.

The model joins each study to its own group's `v0` by an explicit lookup
on its key. The source gets the same join from pandas index alignment.

## Model

| member | source | states |
|---|---|---|
| MetaAnalysis.HedgesFactor | src/meta_analysis/utils.py:15 | the factor 1 - 3/(4n - 9) is defined for every integer n, and j·(4n - 9) = 4n - 12 |
| MetaAnalysis.HedgesFactorRange | src/meta_analysis/utils.py:15 | the factor is strictly between 0 and 1 exactly when n ≥ 4; it is 0 at n = 3 and above 1 for n ≤ 2 |
| MetaAnalysis.ComputeMetaRow | src/meta_analysis/utils.py:12-18 | the row keeps its study; vi_SE2·wf = 1; ESU = es·factor; wES = es·wf; w2 = wf²; wES2 = wES·es = wES²/wf; for n ≥ 4 and es ≠ 0 the corrected size is strictly smaller in magnitude and keeps its sign |
| MetaAnalysis.ComputeMetaData | src/meta_analysis/utils.py:12-18 | the row count and order are kept, and row i is the derivation of study i |
| MetaAnalysis.ComputeRandomEffects | src/meta_analysis/utils.py:27-35 | one summary per distinct (species, structure) key occurring in the rows and no other |
| MetaAnalysis.RandomEffectsPerKey | src/meta_analysis/utils.py:27-35 | a key has a summary iff some row carries it; then sum_wi, sum_wi2, wxES and wxES2 are the sums of wf, w2, wES and wES2 over that key's rows, and k ≥ 1 is their count |
| MetaAnalysis.RandomEffectsOrderIndependent | src/meta_analysis/utils.py:27-35 | any permutation of the rows gives the same summary table |
| MetaAnalysis.QStat | src/meta_analysis/utils.py:53 | Q ≥ 0, and Q is either wxES2 - wxES²/sum_wi or its negation |
| MetaAnalysis.RandomVariance | src/meta_analysis/utils.py:53-57 | the summary is kept; Q ≥ 0; v0 is a number iff the denominator sum_wi - sum_wi2/sum_wi is not 0, and then v0·denominator = Q - (k - 1); at a zero denominator v0 is NaN for a zero numerator Q - (k - 1) and an infinity of the numerator's sign otherwise |
| MetaAnalysis.ComputeRandomVariance | src/meta_analysis/utils.py:52-58 | the same keys, each row the one-group computation of its summary, so Q ≥ 0 and v0 a number exactly where the denominator is not 0 |
| MetaAnalysis.SingleStudyGroup | src/meta_analysis/utils.py:54-57 | a one-study group has k = 1, sum_wi = wf, Q = 0 and a zero denominator, so its v0 is not computed |
| MetaAnalysis.SquareOfSum | src/meta_analysis/utils.py:30-31 | with positive weights, sum_wi² ≥ sum_wi2, and strictly once a group has two rows |
| MetaAnalysis.NotComputedIffSingleStudy | src/meta_analysis/utils.py:54-57 | for derived rows with positive weights, sum_wi > 0; v0 is not computed iff the group has exactly one study and is a number iff it has two or more; and for one study the numerator Q - (k - 1) is 0 too, so the result is 0/0 |
| MetaAnalysis.QIsWeightedDeviation | src/meta_analysis/utils.py:53 | Q is the absolute weighted sum of squared deviations of es from the fixed-effect mean wxES/sum_wi |
| MetaAnalysis.ClampV0 | src/meta_analysis/utils.py:70 | a negative number and minus infinity become 0; everything else, including NaN and plus infinity, is kept; the result is never negative |
| MetaAnalysis.ClampRow | src/meta_analysis/utils.py:69-71 | only v0 changes; the summary and Q are kept |
| MetaAnalysis.ClampRowIdempotent | src/meta_analysis/utils.py:69-72 | applying the floor twice equals applying it once |
| MetaAnalysis.ZeroIfNegative | src/meta_analysis/utils.py:69-72 | in place: afterwards every row of the table is the floor of its old value, so no other field changes |
| MetaAnalysis.ZeroIfNegativeTable | src/meta_analysis/utils.py:69-72 | the same keys, every row floored, and every computed v0 ≥ 0 |
| MetaAnalysis.ZeroIfNegativeIdempotent | src/meta_analysis/utils.py:69-72 | the floor on a whole group table is idempotent |
| MetaAnalysis.MixedSignInfiniteV0 | src/meta_analysis/utils.py:56-70 | with weight factors 2, 2 and -1 and effect sizes 0, the group has sum_wi = 3 and sum_wi2 = 9, so its v0 is minus infinity, which the floor turns into 0 |
| MetaAnalysis.V0For | src/meta_analysis/utils.py:82 | a study reads its own group's v0, or NaN when its key has no group row |
| MetaAnalysis.CorrectRow | src/meta_analysis/utils.py:82-88 | wxES_corr = wi_corr·ESU and wxESsq_corr = wi_corr·ESU²; wi_corr·v0_plus_vi = 1 when v0_plus_vi ≠ 0, else wi_corr = 0; v0_plus_vi = vi_SE2 + v0 for a computed v0; all fields 0 for a NaN or infinite v0 |
| MetaAnalysis.CorrectedWeightBounds | src/meta_analysis/utils.py:82-83 | for wf > 0 and v0 ≥ 0 the corrected weight lies in (0, wf], and equals wf iff v0 = 0 |
| MetaAnalysis.ApplyCorrections | src/meta_analysis/utils.py:81-88 | the row count and order are kept, and row i is study i corrected with the v0 of its own key |
| MetaAnalysis.SumCorrections | src/meta_analysis/utils.py:105 | a group's sum_wi_corr, a sum of magnitudes, is ≥ 0 |
| MetaAnalysis.CalculateConstants | src/meta_analysis/utils.py:100-108 | one row per distinct key of the corrected table, each with sum_wi_corr ≥ 0 |
| MetaAnalysis.ConstantsPerKey | src/meta_analysis/utils.py:100-106 | a key has a row iff some study carries it; its three fields are the sums of wxES_corr, wxESsq_corr and abs(wi_corr) over that key's studies |
| MetaAnalysis.ConstantsOrderIndependent | src/meta_analysis/utils.py:100-106 | any permutation of the corrected rows gives the same constants |
| MetaAnalysis.WeightedMeanWithinBounds | src/meta_analysis/utils.py:103-105 | with non-negative corrected weights, sum_wxES_corr/sum_wi_corr over a group lies within any bounds on its corrected effect sizes |
| MetaAnalysis.PooledMeanWithinBounds | src/meta_analysis/utils.py:100-106 | the same, for the group of a key in the constants table |
| MetaAnalysis.I2 | src/meta_analysis/utils.py:126 | defined iff Q ≠ 0, and then I2·Q = (Q - df)·100 |
| MetaAnalysis.I2Example | src/meta_analysis/utils.py:126 | I2(10, 5) = 50 |
| MetaAnalysis.I2Range | src/meta_analysis/utils.py:122-127 | without the floor, 0 < Q < df gives I2 < 0; Q ≥ df gives I2 ≥ 0; df > 0 gives I2 < 100; df = 0 gives 100 |
| MetaAnalysis.CalculateMeanSe | src/meta_analysis/utils.py:143-150 | the pooled estimate is defined iff sum_wi_corr > 0; then ES_mean·sum_wi_corr = sum_wxES_corr, z·SE_mean = ES_mean, high_CI = ES_mean + 1.96·SE_mean, low_CI = ES_mean - 1.96·SE_mean, so high_CI - low_CI = 2·1.96·SE_mean and low_CI < ES_mean < high_CI; I_val = I2(Q, k - 1) |
| MetaAnalysis.CalculateNumberEs | src/meta_analysis/utils.py:159-163 | one count per distinct key, equal to the number of rows with that key and ≥ 1 |
| MetaAnalysis.NumberEsOrderIndependent | src/meta_analysis/utils.py:159-163 | any permutation of the rows gives the same counts |
| Tables.Group | src/meta_analysis/utils.py:28 | a group holds only rows of the table that carry its key |
| Tables.GroupMultiplicity | src/meta_analysis/utils.py:28 | a group holds each row with its key exactly as often as the table does, and no row with another key |
| Tables.GroupNonEmpty | src/meta_analysis/utils.py:28 | the group of a key is non-empty iff the key occurs in the table |
| Tables.GroupSum | src/meta_analysis/utils.py:30 | summing a column over a group equals the masked sum of that column over the whole table |
| Tables.GroupCount | src/meta_analysis/utils.py:32 | the size of a group is the number of rows with its key |
| Tables.GroupByPermutation | src/meta_analysis/utils.py:28 | reordering the table changes neither the keys nor the multiset of rows in any group |
| Tables.SumPermutation | src/meta_analysis/utils.py:30 | a column sum does not depend on row order |
| Tables.MapRows | src/meta_analysis/utils.py:12-18 | a row-wise derivation keeps the row count and order |
| Pipeline.MetaDataDerived | src/meta_analysis/utils.py:12-18 | compute_meta_data on positive weights yields rows that are each the derivation of a positively weighted study |
| Pipeline.GroupWeightsPositive | src/meta_analysis/utils.py:30 | with positive weights every group's sum_wi is positive, so Q and v0 are defined |
| Pipeline.GroupVariances | src/meta_analysis/utils.py:27-72 | after compute_random_effects, compute_random_variance and zero_if_negative: the keys of the rows, each row the floored one-group computation of that group's summary, v0 not computed iff the group has one study and a number iff it has two or more, and every computed v0 ≥ 0 |
| Pipeline.GroupVarianceAt | src/meta_analysis/utils.py:53-72 | with positive weights, a group's floored v0 is NaN iff the group has one study and a number iff it has two or more; it is never infinite |
| Pipeline.GroupTable | src/meta_analysis/utils.py:12-72 | the group table of a study table has exactly the keys of its derived rows |
| Pipeline.CorrectedStudies | src/meta_analysis/utils.py:81-88 | the corrected table keeps the study count and order, and row i carries the derivation of study i |
| Pipeline.GroupSizeKept | src/meta_analysis/utils.py:12-18 | a group of derived rows has as many rows as there are studies with its key |
| Pipeline.CorrectedWeightsInPipeline | src/meta_analysis/utils.py:82-88 | every corrected weight lies in [0, wf], and is positive iff the study's group has at least two studies |
| Pipeline.CorrectedWeightAt | src/meta_analysis/utils.py:82-88 | the same for one study, and abs(wi_corr) > 0 iff its group has at least two studies |
| Pipeline.FixedWeightWhenNoVariance | src/meta_analysis/utils.py:82-83 | where a group's floored v0 is 0, each of its studies gets its fixed-effect weight wf |
| Pipeline.CorrectedWeightSign | src/meta_analysis/utils.py:82-88 | every row of the corrected table has abs(wi_corr) > 0 iff its group has at least two studies |
| Pipeline.PooledWeightIffReplicated | src/meta_analysis/utils.py:105 | a group's sum_wi_corr is positive, so ES_mean is defined, iff the group has at least two studies |
| Pipeline.ReplicatedGroupWeighted | src/meta_analysis/utils.py:105 | a group of two or more studies has sum_wi_corr > 0 |
| Pipeline.SingleStudyGroupUnweighted | src/meta_analysis/utils.py:105 | a single-study group has sum_wi_corr = 0: its NaN v0 was cleaned up to a zero weight |
| Pipeline.CorrectionsKeepGroups | src/meta_analysis/utils.py:81-88 | apply_corrections keeps the set of keys and the number of rows per key |
| Pipeline.KValEqualsK | src/meta_analysis/utils.py:159-163 | calculate_number_es has the same keys as compute_random_effects, and k_val = k = the number of studies with the key |
| Pipeline.CorrectionWeighted | src/meta_analysis/utils.py:84 | row i of the corrected table carries input row i and has wxES_corr = wi_corr·ESU |
| Pipeline.CorrectionsWeighted | src/meta_analysis/utils.py:84 | every row of the corrected table carries one of the input rows and has wxES_corr = wi_corr·ESU |
| Pipeline.CorrectedRowsDerived | src/meta_analysis/utils.py:81-88 | every corrected row comes from a study of the table, has wi_corr ≥ 0 and wxES_corr = wi_corr·ESU |
| Pipeline.PooledMeanInRange | src/meta_analysis/utils.py:144 | ES_mean of a group lies within any bounds on the bias-corrected effect sizes of its studies |
| Pipeline.PipelineOrderIndependent | src/meta_analysis/utils.py:27-163 | permuting the studies gives the same group table, the same constants and the same counts |
| Pipeline.CorrectedPermutation | src/meta_analysis/utils.py:81-88 | permuting the studies keeps the group table and permutes the corrected rows |
| Pipeline.TwoStudyTotals | src/meta_analysis/utils.py:27-35 | for n = 10, 20, wf = 2, 4 and es = 0.5, 0.3: sum_wi = 6, sum_wi2 = 20, k = 2, wxES = 2.2 and wxES2 = 0.86 |
| Pipeline.TwoStudyVariance | src/meta_analysis/utils.py:53-57 | for that group Q = 4/75 and v0 = -0.355 before the floor and 0 after it, and I2(Q, k - 1) = -1775 |
| Pipeline.TwoStudyCorrections | src/meta_analysis/utils.py:82-83 | for that group the corrected weights are 2 and 4 |
| Pipeline.MeanSeOfGroup | src/meta_analysis/utils.py:143-150 | on a group of the pipeline, the pooled estimate is defined iff the group has at least two studies, and I_val is undefined for a single-study group (Q = 0) |

## Left out

- Floating point: NaN, ±infinity and signed zero are not modelled. The
  model computes in exact reals. NaN and infinity appear only as the
  `NotComputed`, `PlusInfinity` and `MinusInfinity` values of `V0`, and as
  the `None` results of `I2` and `CalculateMeanSe`. A division by a zero
  denominator is taken as a division by +0.
- Square roots: Dafny's reals have no square root. `SE_corr`
  (utils.py:86) is not part of the model. `SE_mean` (utils.py:145) is an
  input `se`, which `IsSeMean` requires to be positive with
  `se·se·sum_wi_corr = 1`. `z`, `high_CI` and `low_CI` are stated
  relative to it.
- `fillna` / `replace`: the model replaces what the clean-up would replace
  in reachable cases. It does not model pandas' whole-frame
  replacement of other NaN columns.
- The `np` import: utils.py:88 and 108 call `np.inf`, but the file imports
  only pandas, so as written both clean-ups would raise `NameError`. The
  model captures the intended replacement.
- MetaAnalysis.CorrectRow: for `v0_plus_vi = 0` and a negative corrected
  effect size, the source's `wxES_corr` would be `inf·ESU = -inf`, which
  `replace(np.inf, 0)` does not catch. The model gives 0. After
  zero_if_negative this case needs `1/wf = -v0 ≤ 0`, so it needs a
  negative weight factor.
- MetaAnalysis.CorrectRow: for a v0 of minus infinity the source would
  leave minus infinity in `v0` and `v0_plus_vi`, which `replace(np.inf, 0)`
  does not catch. The model gives 0. zero_if_negative removes minus
  infinity before this stage.
- MetaAnalysis.CalculateConstants: the model's sums are always finite,
  so the second clean-up (utils.py:107-108) has nothing to replace.
- MetaAnalysis.ComputeMetaRow: requires `wf ≠ 0`. The source would give an
  infinite `vi_SE2` there. Since n is an integer, 4n - 9 is never 0 and
  needs no precondition.
- MetaAnalysis.QStat, MetaAnalysis.RandomVariance: both require
  `sum_wi ≠ 0`. The source would give a NaN or infinity there.
- Pipeline lemmas: these require positive weight factors. A weight factor
  is an inverse-variance weight, so it is positive. Mixed-sign weights are
  covered only by the per-stage members. With them a group's `sum_wi`
  could be 0, or a group of several studies could have an infinite v0
  (`MixedSignInfiniteV0`).
- pandas machinery: `groupby`, `apply`, `assign`, index alignment and the
  sort order of the group index are not modelled. Group tables are maps,
  which have no order.
- The caller's join and output: the code that broadcasts the group table
  onto the studies (modelled as the explicit lookup `V0For`) and that
  passes Q and k to `calculate_mean_se` is not part of this model. So
  is the data loading.
- Column defaults: the `levels` parameter of `compute_random_effects`
  (utils.py:21) is fixed to its default (species, structure).
- `count()` skips null values. The model's rows have no nulls, so `k`
  and `k_val` are row counts.
- Commented-out code: the I² floor (utils.py:122-125) and the `k_val`
  line (utils.py:149) are comments and are not modelled as behaviour.
- `wxES` (utils.py:33) sums `wES`. utils.py:16 builds `wES` from the raw
  `standardized es`, not from `standardized_ESU`. So `TwoStudyTotals`
  gives wxES = 2.2.
- `tests/test_skeleton.py` tests a `fib` function outside this file.
  It is not part of this model.
