# UK Biobank spinal-cord CSA statistics: stepwise selection and subject filter

This project models the algorithmic core of `compute_stats.py`, a script that
analyses UK Biobank subject measurements (sex, height, weight, intracranial
volume, age) against the spinal-cord cross-sectional area (CSA) measured on
T1w and T2w images. Three pieces are modelled:

- **`compute_stepwise`** (module `Stepwise`): greedy forward/backward feature
  selection. Each iteration first scores every column not yet included by its
  p-value when fitted together with the included columns, and appends the best
  one if its p-value is strictly below `threshold_in`. It then scores every
  included column in a fit on all included columns, and drops the worst if its
  p-value is strictly above `threshold_out`. The loop stops after an iteration
  that changed nothing. The OLS fit is a foreign call over floats, so it is an
  uninterpreted oracle `pval(design, column)`. The forward score is
  `pval(included + [c], c)` and the backward score is
  `pval(included, included[i])`. pandas' `min()`/`max()` of an empty Series is
  NaN, and every comparison with NaN is false. The model writes NaN as
  `None`, so no column is added when no candidate is left and none is dropped
  when `included` is empty. The imperative parts stay imperative:
  `ForwardStep` fills `new_pval` in a loop, and `ComputeStepwise` runs the
  selection loop with its `changed` flag. Both are proved against the
  specification functions `Forward`, `Backward`, `Iteration` and `Run`.
- **`remove_subjects`** (module `SubjectFilter`): a table is a sequence of rows
  `Row(key, fields)`, and a missing cell is `None`. The function drops the
  excluded subject ids (`drop`), then every row with a missing cell
  (`dropna`), then renumbers the rows 0..n-1 (`reset_index(drop=True)`).
  `drop` keeps pandas' default `errors='raise'`, so an excluded id that is
  not in the table is an error (`KeyNotFound`), not a silent skip. The model
  follows the code here.
- **`%_M` / `%_F`** (module `SexShare`): `100 * count_nonzero / len` and its
  complement to 100. An empty column is Python's `ZeroDivisionError`.

Termination differs between the program as written and the loop it evidently
intends (see "## Findings").

- **As written**, every drop raises an exception, so the run cannot cycle.
  Each iteration that does not raise either appends a new column or returns.
  The run therefore ends, by returning or by raising, within one iteration
  more than there are columns (`AsWrittenEnds`, `AsWrittenEndsFromEmpty`).
  When it does return a selection, that selection is the one the corrected
  loop returns (`AsWrittenAgreesWhenItReturns`).
- **The corrected loop**, which drops the worst column and goes on, is not
  guaranteed to terminate. `Run` and `ComputeStepwise` take an iteration bound
  `fuel` and return `None` when the loop has not stopped within it.
  `LoopFuelMonotone` shows that more fuel never changes a returned answer.
  `CyclingNeverReturns` gives a concrete oracle on which the corrected loop
  cycles Height → Weight → Age → Height for ever. That oracle depends only on
  which columns are fitted, not on their order. It uses
  `threshold_in == threshold_out == 0.25`, the values the script's `main`
  passes, so the corrected loop can fail to terminate even when the two
  thresholds are equal. On the same oracle the program as written raises in
  its second iteration (`CyclingAsWrittenRaises`).

Python's set has no defined iteration order, and the source builds the
candidate list from one (line 236). The model lists candidates in column
order instead, each column once (`ExcludedKeepsColumnOrder`). A tie for the
smallest p-value goes to the first candidate in that order.

## Model

| member | source | states |
|---|---|---|
| `Stepwise.Excluded` | pipeline_ukbiobank/cli/compute_stats.py:236 | the candidates are exactly the columns of X not yet included, none of them twice |
| `Stepwise.ExcludedKeepsColumnOrder` | pipeline_ukbiobank/cli/compute_stats.py:236 | the candidates keep the relative order of the columns of X, so a tie is broken in column order |
| `Stepwise.ForwardScore` | pipeline_ukbiobank/cli/compute_stats.py:238-240 | no ensures of its own: the p-value of `c` in the fit on `included + [c]`; specified by `Stepwise.ForwardStep` |
| `Stepwise.ForwardScores` | pipeline_ukbiobank/cli/compute_stats.py:237-241 | no ensures of its own: the `new_pval` Series over the candidates; specified by `Stepwise.ForwardStep` and `Stepwise.ForwardAddsWhenBelow` |
| `Stepwise.BackwardScore` | pipeline_ukbiobank/cli/compute_stats.py:252-254 | no ensures of its own: the p-value of the i-th included column in the fit on `included`; specified by `Stepwise.BackwardDropsWorst` |
| `Stepwise.BackwardScores` | pipeline_ukbiobank/cli/compute_stats.py:252-254 | no ensures of its own: `model.pvalues.iloc[1:]`; specified by `Stepwise.BackwardDropsWorst` |
| `Stepwise.ArgMin` | pipeline_ukbiobank/cli/compute_stats.py:246 | `argmin` returns a position holding the smallest value, and no earlier position holds that value |
| `Stepwise.ArgMax` | pipeline_ukbiobank/cli/compute_stats.py:258 | `argmax` returns a position holding the largest value, and no earlier position holds that value |
| `Stepwise.Min` | pipeline_ukbiobank/cli/compute_stats.py:242 | `min()` is NaN exactly for an empty Series; otherwise it is an element no larger than any other |
| `Stepwise.Max` | pipeline_ukbiobank/cli/compute_stats.py:255 | `max()` is NaN exactly for an empty Series; otherwise it is an element no smaller than any other |
| `Stepwise.Below` | pipeline_ukbiobank/cli/compute_stats.py:245 | no ensures of its own: `best_pval < threshold_in`, false for NaN; specified by `Stepwise.ForwardAddsWhenBelow` |
| `Stepwise.Above` | pipeline_ukbiobank/cli/compute_stats.py:256 | no ensures of its own: `worst_pval > threshold_out`, false for NaN; specified by `Stepwise.BackwardDropsWorst` |
| `Stepwise.RemoveAt` | pipeline_ukbiobank/cli/compute_stats.py:260 | removing one position shortens the list by one; specified further by `Stepwise.RemoveAtKeepsWellFormed` |
| `Stepwise.Forward` | pipeline_ukbiobank/cli/compute_stats.py:236-249 | no ensures of its own: the forward step; specified by `Stepwise.ForwardAddsWhenBelow`, `Stepwise.ForwardAppendsMinimum`, `Stepwise.ForwardSaturated` and `Stepwise.ForwardProgress` |
| `Stepwise.Backward` | pipeline_ukbiobank/cli/compute_stats.py:252-260 | no ensures of its own: the intended backward step, dropping by position; specified by `Stepwise.BackwardDropsWorst` |
| `Stepwise.Iteration` | pipeline_ukbiobank/cli/compute_stats.py:234-262 | no ensures of its own: one pass of the loop body with the intended backward step; specified by `Stepwise.IterationKeepsWellFormed` and `Stepwise.StableIff` |
| `Stepwise.Loop` | pipeline_ukbiobank/cli/compute_stats.py:233-265 | no ensures of its own: the bounded `while True` around a body; specified by `Stepwise.LoopReturnsStable`, `Stepwise.LoopKeeps` and `Stepwise.LoopFuelMonotone` |
| `Stepwise.Run` | pipeline_ukbiobank/cli/compute_stats.py:233-265 | no ensures of its own: the corrected selection loop; specified by `Stepwise.RunConverged`, `Stepwise.ComputeStepwise` and `Stepwise.CyclingNeverReturns` |
| `Stepwise.ForwardStep` | pipeline_ukbiobank/cli/compute_stats.py:236-249 | the loop that fills `new_pval` and the add that follows it compute the forward step `Forward` |
| `Stepwise.ForwardAddsWhenBelow` | pipeline_ukbiobank/cli/compute_stats.py:242-248 | the forward step adds a column if and only if some candidate's p-value is strictly below `threshold_in`; otherwise `included` is unchanged |
| `Stepwise.ForwardAppendsMinimum` | pipeline_ukbiobank/cli/compute_stats.py:245-247 | when the forward step adds, it appends exactly one candidate at the end: one with the smallest p-value, below `threshold_in`, and the first in candidate order among those tied with it |
| `Stepwise.ForwardSaturated` | pipeline_ukbiobank/cli/compute_stats.py:236-245 | with every column already included, the forward step adds nothing and leaves `included` unchanged |
| `Stepwise.Pending` | pipeline_ukbiobank/cli/compute_stats.py:236 | the number of positions of X whose column is not yet included is at most the number of columns |
| `Stepwise.PendingShrinks` | pipeline_ukbiobank/cli/compute_stats.py:247 | including a column of X that was not included leaves fewer pending |
| `Stepwise.ForwardProgress` | pipeline_ukbiobank/cli/compute_stats.py:236-249 | the forward step keeps `included` well formed. It leaves the list unchanged when it adds nothing, and an add leaves fewer columns pending |
| `Stepwise.RemoveAtKeepsWellFormed` | pipeline_ukbiobank/cli/compute_stats.py:260 | removing one entry keeps the list free of duplicates and within the columns, and the removed column is gone |
| `Stepwise.BackwardDropsWorst` | pipeline_ukbiobank/cli/compute_stats.py:252-260 | the backward step drops a column if and only if some included column's p-value is strictly above `threshold_out`. It drops one column only: one with the largest p-value, the first on ties. The others keep their order, and nothing is dropped from an empty list |
| `Stepwise.IterationKeepsWellFormed` | pipeline_ukbiobank/cli/compute_stats.py:236-260 | after an iteration, `included` still holds only columns of X and no duplicate |
| `Stepwise.StableIff` | pipeline_ukbiobank/cli/compute_stats.py:234-264 | an iteration leaves `changed` unset if and only if every candidate scores at least `threshold_in` and every included column at most `threshold_out`; the list is then unchanged |
| `Stepwise.LoopReturnsStable` | pipeline_ukbiobank/cli/compute_stats.py:263-265 | the loop returns only a list on which the iteration body reports no change |
| `Stepwise.LoopKeeps` | pipeline_ukbiobank/cli/compute_stats.py:233-265 | a property that every iteration preserves holds of the returned list |
| `Stepwise.LoopFuelMonotone` | pipeline_ukbiobank/cli/compute_stats.py:233-265 | the iteration bound is only a bound: once the loop has returned, more iterations give the same list |
| `Stepwise.RunConverged` | pipeline_ukbiobank/cli/compute_stats.py:232-265 | a returned selection has no duplicate, holds only columns of X, and is a fixed point of the iteration |
| `Stepwise.ComputeStepwise` | pipeline_ukbiobank/cli/compute_stats.py:218-265 | the `while True` loop with its `changed` flag computes `Run` from the empty list; what it returns is well formed and stable |
| `Stepwise.AsWrittenRaisesOnEveryDrop` | pipeline_ukbiobank/cli/compute_stats.py:254-262 | the backward step as written raises exactly when the intended step would drop a column, and otherwise agrees with it |
| `Stepwise.BackwardAsWritten` | pipeline_ukbiobank/cli/compute_stats.py:252-262 | no ensures of its own: the backward step as written, raising on every drop; specified by `Stepwise.AsWrittenRaisesOnEveryDrop` |
| `Stepwise.IterationAsWritten` | pipeline_ukbiobank/cli/compute_stats.py:234-262 | no ensures of its own: one pass of the loop body as written; specified by `Stepwise.IterationAsWrittenAgrees` and `Stepwise.IterationAsWrittenProgress` |
| `Stepwise.LoopOrRaise` | pipeline_ukbiobank/cli/compute_stats.py:233-265 | no ensures of its own: the bounded `while True` around a body that may raise; specified by `Stepwise.LoopOrRaiseEnds` and `Stepwise.LoopOrRaiseAgrees` |
| `Stepwise.RunAsWritten` | pipeline_ukbiobank/cli/compute_stats.py:233-265 | no ensures of its own: the selection loop as written; specified by `Stepwise.AsWrittenEnds`, `Stepwise.AsWrittenAgreesWhenItReturns` and `Stepwise.CyclingAsWrittenRaises` |
| `Stepwise.IterationAsWrittenAgrees` | pipeline_ukbiobank/cli/compute_stats.py:234-262 | an iteration as written raises exactly when the intended one drops a column, and is otherwise the intended iteration |
| `Stepwise.IterationAsWrittenProgress` | pipeline_ukbiobank/cli/compute_stats.py:234-264 | an iteration as written that sets `changed` without raising has added a column: the list stays well formed and fewer columns are pending |
| `Stepwise.LoopOrRaiseEnds` | pipeline_ukbiobank/cli/compute_stats.py:233-265 | a loop whose body may raise returns or raises when a measure drops with every changing iteration and the bound exceeds that measure |
| `Stepwise.LoopOrRaiseAgrees` | pipeline_ukbiobank/cli/compute_stats.py:233-265 | a loop that may raise, and whose body agrees with a loop that cannot wherever it does not raise, returns what that loop returns |
| `Stepwise.AsWrittenEnds` | pipeline_ukbiobank/cli/compute_stats.py:233-265 | as written, the run returns or raises within one iteration more than there are columns pending |
| `Stepwise.AsWrittenEndsFromEmpty` | pipeline_ukbiobank/cli/compute_stats.py:232-265 | from the empty list, `len(X.columns) + 1` iterations are enough for the written program to return or raise |
| `Stepwise.AsWrittenAgreesWhenItReturns` | pipeline_ukbiobank/cli/compute_stats.py:232-265 | a selection returned by the program as written is the one the corrected loop returns |
| `Stepwise.AsWrittenDropExample` | pipeline_ukbiobank/cli/compute_stats.py:255-261 | for "Age" with p-value 0.9 and `threshold_out` 0.25, the intended step drops "Age" and the written one raises |
| `Stepwise.LoopCycleNeverReturns` | pipeline_ukbiobank/cli/compute_stats.py:233-264 | a loop whose body leads round a three-step cycle, setting `changed` each time, never returns |
| `Stepwise.RunCycleNeverReturns` | pipeline_ukbiobank/cli/compute_stats.py:233-264 | the selection loop started on, or one iteration before, such a cycle never returns |
| `Stepwise.CyclingSteps` | pipeline_ukbiobank/cli/compute_stats.py:236-260 | the four iterations of the concrete cycling oracle go from the empty list to Height, then Height → Weight → Age → Height |
| `Stepwise.CyclingNeverReturns` | pipeline_ukbiobank/cli/compute_stats.py:233-264 | for that oracle and thresholds 0.25/0.25, no iteration bound is enough: the loop does not terminate |
| `Stepwise.RunAsWrittenRaisesSecond` | pipeline_ukbiobank/cli/compute_stats.py:233-262 | a written run whose first iteration goes on to a list on which the next iteration raises ends in that exception |
| `Stepwise.CyclingAsWrittenRaises` | pipeline_ukbiobank/cli/compute_stats.py:233-262 | on the cycling oracle the program as written does not cycle: its second iteration must drop Height and raises |
| `SubjectFilter.Filter` | pipeline_ukbiobank/cli/compute_stats.py:314-315 | a row-filter keeps every copy of each row its test accepts and no copy of any other: each row occurs in the result as many times as in the input, or not at all. It never makes the table longer |
| `SubjectFilter.FilterIsSubsequence` | pipeline_ukbiobank/cli/compute_stats.py:314-315 | filtering keeps the relative order of the kept rows and invents none |
| `SubjectFilter.SurvivorsSpec` | pipeline_ukbiobank/cli/compute_stats.py:313-315 | the surviving rows are the input rows that are not excluded and have no missing cell, each as many times as it occurs in the input (duplicated subjects survive twice), in their original relative order |
| `SubjectFilter.RemoveSubjectsSpec` | pipeline_ukbiobank/cli/compute_stats.py:304-318 | the function fails if and only if an excluded id is not in the table, and the error lists exactly those ids. Otherwise row i of the result carries the cells of the i-th surviving row and is numbered i, and no result row has a missing cell |
| `SubjectFilter.RemoveSubjectsKeepsCompleteTable` | pipeline_ukbiobank/cli/compute_stats.py:314-315 | with an empty exclusion list and no missing cell, the same rows come back in the same order, numbered 0..n-1 |
| `SubjectFilter.RemoveSubjectsIdempotent` | pipeline_ukbiobank/cli/compute_stats.py:314-315 | applying the filter again to its own output, with an empty exclusion list, changes nothing |
| `SubjectFilter.DropIndex` | pipeline_ukbiobank/cli/compute_stats.py:314 | no ensures of its own: `drop` with `errors='raise'`; specified by `SubjectFilter.RemoveSubjectsSpec` |
| `SubjectFilter.DropNa` | pipeline_ukbiobank/cli/compute_stats.py:315 | no ensures of its own: `dropna(0, how='any')`; specified by `SubjectFilter.RemoveSubjectsSpec` and `SubjectFilter.SurvivorsSpec` |
| `SubjectFilter.ResetIndex` | pipeline_ukbiobank/cli/compute_stats.py:315 | no ensures of its own: `reset_index(drop=True)`; specified by `SubjectFilter.RemoveSubjectsSpec` |
| `SubjectFilter.RemoveSubjects` | pipeline_ukbiobank/cli/compute_stats.py:304-318 | no ensures of its own: `remove_subjects`; specified by `SubjectFilter.RemoveSubjectsSpec`, `SubjectFilter.RemoveSubjectsKeepsCompleteTable` and `SubjectFilter.RemoveSubjectsIdempotent` |
| `SexShare.CountNonzero` | pipeline_ukbiobank/cli/compute_stats.py:131 | `count_nonzero` is at most the length of the column |
| `SexShare.CountZero` | pipeline_ukbiobank/cli/compute_stats.py:132 | the number of subjects coded 0 is at most the length of the column; related to `count_nonzero` by `SexShare.CountsPartition` |
| `SexShare.CountsPartition` | pipeline_ukbiobank/cli/compute_stats.py:131-132 | every subject is counted once, as coded zero or as coded nonzero |
| `SexShare.CountNonzeroAll` | pipeline_ukbiobank/cli/compute_stats.py:131 | the nonzero count equals the length if and only if no code is zero, and is 0 if and only if every code is zero |
| `SexShare.SexPercentages` | pipeline_ukbiobank/cli/compute_stats.py:131-132 | the function fails (division by zero) if and only if the column is empty. Otherwise `%_M` and `%_F` both lie in [0, 100] and add up to 100 |
| `SexShare.FemaleShareCountsZeros` | pipeline_ukbiobank/cli/compute_stats.py:132 | `%_F` is 100 times the fraction of subjects coded 0 |
| `SexShare.MaleShareExtremes` | pipeline_ukbiobank/cli/compute_stats.py:131 | `%_M` is 100 if and only if every code is nonzero, and 0 if and only if every code is zero |

## Findings

| source | as written | input that shows it | evidently intended | confidence | as-written member | corrected member |
|---|---|---|---|---|---|---|
| pipeline_ukbiobank/cli/compute_stats.py:258-262 | `pvalues.argmax()` gives a position, so `included.remove(worst_feature)` searches the list of column names for an integer and raises ValueError. With a label-returning `argmax`, the undefined name `verbose` on line 261 raises NameError instead. Every drop therefore ends the run with an exception | `included = ["Age"]`, p-value 0.9, `threshold_out = 0.25` (`AsWrittenDropExample`) | drop the column at that position, `included[argmax]`, and continue the loop | not executed | `Stepwise.BackwardAsWritten` | `Stepwise.Backward` |

The corrected loop (`Iteration`, `Run`, `ComputeStepwise`) uses `Backward`.
The program as written is modelled beside it (`IterationAsWritten`,
`RunAsWritten`). The two are connected by `AsWrittenAgreesWhenItReturns`, and
the termination of the written one is `AsWrittenEnds`.

## Left out

- The OLS fit (`sm.OLS(...).fit()`, `generate_linear_model`) and its p-values, R², adjusted R², AIC and F-statistic: these are a foreign statsmodels call over floats. Only the p-values appear, as the oracle `pval`.
- A p-value that is NaN, for example from a degenerate fit: the oracle returns a real number.
- `sm.add_constant` skips adding the intercept when X already has a constant column, and `pvalues.iloc[1:]` would then drop a real coefficient. The model's backward scores are always the included columns' own.
- Excluded: the candidate order is column order. The source uses the iteration order of a Python set, which is arbitrary.
- Backward: `list.remove` removes the first entry equal to a value, and the model removes by position. The two agree because `included` never holds a duplicate (`IterationKeepsWellFormed`).
- ComputeStepwise: the source's `while True` has no bound. The model stops after `fuel` iterations and returns `None`, so it does not model a run that never ends, only that no answer exists within the bound.
- The `logger.info` lines in `compute_stepwise` and `remove_subjects`, including the list of removed subjects (lines 313 and 316): logging only.
- RemoveSubjects: the exclusion list is a sequence of subject ids. A YAML file that loads as `None`, or fails to parse (the exception is logged and swallowed in `main`), is not modelled.
- SexPercentages: computed in exact real arithmetic. The float rounding of `100 * (count / len)` and of `100 - %_M` is not modelled.
- `compute_statistics` (mean, population std, median, `1.96·std/√n`, COV) and the min/max/median/mean part of `compute_predictors_statistic`: floating-point numerics over numpy.
- `get_correlation_table`: a pandas `corr` over floats.
- `compare_models`: it only copies attributes of fitted models into a table.
- `get_predictors_rank`: it wraps sklearn's SVR/RFECV, refers to an undefined `y_T1w`, and is never called.
- `compute_regression_CSA`: file writes of summaries and coefficients. Line 286 writes the stepwise coefficients again where the full model's were probably meant, but this is output plumbing only.
- `config_table`, `output_text_stats`, `get_parser`, `main` and the log-handler setup: rendering, logging, argument parsing, YAML loading and directory creation are I/O.
- `setup.py`: packaging metadata.
