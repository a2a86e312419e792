# Theta analyzer model

This project models the theta analyzer of a trading bot that sells options.
Selling options earns money from theta decay: the daily loss of time value
of the contracts sold. The analyzer looks at every option position of an
account, sums the account's daily theta and its principal, and reports three
things:

- the decay rate as a percentage of principal;
- the return that 250 trading days of that decay would bring;
- the five positions with the highest and the five with the lowest decay
  percentage.

The model has four modules:

- `Wrappers` (`wrappers.dfy`) holds `Option`, which is Python's `None` or a
  number, and `Result`, which is an outcome or the exception raised.
- `ThetaSpec` (`theta_spec.dfy`) is the pure specification of one position and
  of the totals. It covers:
  - the per-position annotation done on construction (`Annotate`);
  - the sums the analysis accumulates (`ThetaSum`, `PrincipalSum`);
  - the account ratio and the predicted yearly return (`Ratio`,
    `PredictedReturn`).
- `Ranking` (`ranking.dfy`) is the ranking step:
  - the (symbol, decay percentage) rows of the positions that have a theta;
  - Python's stable `sort(key=..., reverse=True)`, written as an insertion
    sort and proved to be the unique stable descending permutation;
  - the reads of indices 0..4 and -1..-5.
- `Analyzer` (`theta_analyzer.dfy`) is the imperative part, as in the source:
  - `OptionPosition` objects whose greeks are written in place;
  - the `ThetaAnalyzer` object, whose constructor annotates the positions in
    a loop and whose `Analyze` method accumulates the totals in a loop and
    builds the report;
  - `ReportExtremes`, the two index loops of the report.

The methods are proved against the specification functions. The properties
of those functions are proved as lemmas.

The model follows these behaviours of the code:

- Positions whose ticker is not in the map keep their greeks untouched.
- A theta of `None` or `0` leaves the old decay percentage in place, because
  of Python truthiness at line 28.
- A zero total principal raises `ZeroDivision` at line 39, after the totals
  have already been accumulated.
- The sort raises `Unorderable` when it would compare a missing percentage:
  two or more rows, one of them `None`.
- Fewer than five ranked rows raise `IndexOutOfRange` at the first index past
  the end. The analysis does not degrade gracefully there.
- Calling `Analyze` again adds the same sums onto the totals a second time,
  since they are never reset. `SecondAnalysisKeepsRatio` shows that the ratio
  survives this while the predicted return doubles.
- Nothing in the code fixes the sign of `short_quantity`: a short position
  may be written as a negative or as a positive count of contracts. The
  model allows both. `ContributionSigns` gives the signs one decaying
  position adds under each encoding. `ThreeShortContracts` works one
  scenario both ways: with quantity -1, total theta is 17 and principal
  -35000; with quantity +1, total theta is -17 and principal +35000. Both
  give a ratio of 17/350. `RatioSignOppositeToTheta` assumes a positive
  principal, which is the positive encoding on positive strikes.

## Model

| member | source | states |
|---|---|---|
| Analyzer.ThetaAnalyzer.constructor | trading/theta_analyzer.py:10-30 | stores the positions and the map, sets the three totals to 0, and leaves every position equal to `Annotate` of its old value; this holds even when one position object appears twice in the list |
| Analyzer.OptionPosition.SetDelta | trading/theta_analyzer.py:25 | writes the delta and changes no other field of the position |
| Analyzer.OptionPosition.SetTheta | trading/theta_analyzer.py:27 | writes the theta and changes no other field of the position |
| Analyzer.ThetaAnalyzer.Accumulate | trading/theta_analyzer.py:33-38 | adds `ThetaSum` and `PrincipalSum` of the positions onto the running totals; positions without a theta are skipped; the ratio field is untouched |
| Analyzer.ThetaAnalyzer.Analyze | trading/theta_analyzer.py:32-58 | totals grow by the sums over the positions; a zero principal gives `ZeroDivision` and leaves the ratio field unchanged; otherwise the ratio field is `Ratio` of the totals, and the result is the report (ratio, `PredictedReturn`, top and bottom five of the ranking), or the ranking's error exactly when the ranking fails |
| Analyzer.ReportExtremes | trading/theta_analyzer.py:49-53 | the two index loops fail with `IndexOutOfRange` exactly when fewer than five rows exist; otherwise they return rows 0..4 and rows -1..-5 |
| ThetaSpec.Truthy | trading/theta_analyzer.py:28 | Python truthiness of an optional number: `None` and `0` are false, every other number is true |
| ThetaSpec.DecayPercentage | trading/theta_analyzer.py:29 | `-theta*100/strike`, defined only for a non-zero strike; the result times the strike is `-100 * theta` |
| ThetaSpec.Annotate | trading/theta_analyzer.py:20-29 | annotation never changes the position's ticker, symbol, strike or quantity |
| ThetaSpec.AnnotateEffect | trading/theta_analyzer.py:20-29 | an unknown ticker leaves the position as it was; a known one gets the chain's delta and theta for its symbol, and a truthy theta sets the decay to `-theta*100/strike` |
| ThetaSpec.ZeroThetaKeepsOldDecay | trading/theta_analyzer.py:28-29 | a zero theta from the chain leaves the previous decay percentage in place |
| ThetaSpec.AnnotateIdempotent | trading/theta_analyzer.py:19-29 | annotating an annotated position again changes nothing, and it stays defined |
| ThetaSpec.DecayPositiveForDecayingOption | trading/theta_analyzer.py:29 | a negative theta on a positive strike gives a positive decay percentage |
| ThetaSpec.ThetaContribution | trading/theta_analyzer.py:34-37 | what one position adds to total theta: its contract states 0 without a theta; the body adds `theta*quantity*100` otherwise, and `OnlyPositionsWithThetaCount` states that case |
| ThetaSpec.PrincipalContribution | trading/theta_analyzer.py:34-38 | what one position adds to total principal: its contract states 0 without a theta; the body adds `strike*quantity*100` otherwise, and `OnlyPositionsWithThetaCount` states that case |
| ThetaSpec.ContributionSigns | trading/theta_analyzer.py:37-38 | a decaying option on a positive strike adds positive theta and negative principal when its quantity is negative, and the reverse when it is positive |
| ThetaSpec.ThetaSum | trading/theta_analyzer.py:33-37 | total theta: the position contributions summed front to back, starting from 0 |
| ThetaSpec.PrincipalSum | trading/theta_analyzer.py:33-38 | total principal: the position contributions summed front to back, starting from 0 |
| ThetaSpec.WithTheta | trading/theta_analyzer.py:33-36 | keeps no more positions than it was given, and every kept one has a theta |
| ThetaSpec.WithThetaMembers | trading/theta_analyzer.py:33-36 | a position is kept if and only if it is in the list and has a theta |
| ThetaSpec.SumsAppend | trading/theta_analyzer.py:33-38 | the accumulated totals of two lists in a row are the sums of their separate totals |
| ThetaSpec.OnlyPositionsWithThetaCount | trading/theta_analyzer.py:33-38 | the totals equal the totals over the positions with a theta; each of those adds `theta*quantity*100` to total theta and `strike*quantity*100` to total principal |
| ThetaSpec.NoThetaMeansZeroPrincipal | trading/theta_analyzer.py:33-39 | with no position holding a theta, both totals are zero, so line 39 divides by zero |
| ThetaSpec.Ratio | trading/theta_analyzer.py:39 | `-totalTheta*100/totalPrincipal`, the formula of `DecayPercentage` applied to the account totals, defined only for a non-zero principal; the ratio times the principal is `-100 * total theta` |
| ThetaSpec.PredictedReturn | trading/theta_analyzer.py:41 | `ratio*250*principal/100`, which equals `-250 * total theta` whatever the principal |
| ThetaSpec.RatioSignOppositeToTheta | trading/theta_analyzer.py:39 | with a positive principal, the ratio is positive, negative or zero exactly as total theta is negative, positive or zero |
| ThetaSpec.SecondAnalysisKeepsRatio | trading/theta_analyzer.py:14-41 | a second analysis over unchanged positions doubles both totals and the predicted return but keeps the ratio |
| ThetaSpec.ThreeShortContracts | trading/theta_analyzer.py:37-39 | three single short contracts (strikes 100, 200, 50; thetas -0.05, -0.10, -0.02): with quantity -1, total theta 17 and principal -35000; with quantity +1, total theta -17 and principal 35000; ratio 17/350 either way |
| Ranking.Eligible | trading/theta_analyzer.py:46 | one row per position with a theta, in position order, holding that position's symbol and decay percentage |
| Ranking.Insert | trading/theta_analyzer.py:47 | inserting a row yields the old rows plus that row, as a multiset |
| Ranking.SortDesc | trading/theta_analyzer.py:47 | the sorted rows are a permutation of the input |
| Ranking.SortByDecay | trading/theta_analyzer.py:47 | fails with `Unorderable` if and only if there are two or more rows and one lacks a percentage; otherwise returns a permutation |
| Ranking.InsertDescending | trading/theta_analyzer.py:47 | inserting into a descending list keeps it descending |
| Ranking.SortDescDescending | trading/theta_analyzer.py:47 | the sorted rows are in non-increasing order of decay percentage |
| Ranking.InsertStable | trading/theta_analyzer.py:47 | insertion puts the new row ahead of every row with the same percentage |
| Ranking.SortDescStable | trading/theta_analyzer.py:47 | rows with equal percentages keep their original relative order |
| Ranking.WithDecayMembers | trading/theta_analyzer.py:47 | the rows of one percentage are exactly the rows carrying it |
| Ranking.DescendingDeterminedByKeys | trading/theta_analyzer.py:47 | two descending lists with the same rows per percentage, in the same order, are equal |
| Ranking.StableDescendingIsSortDesc | trading/theta_analyzer.py:47 | any stable descending rearrangement of the rows is the modelled sort: the sort's result is unique |
| Ranking.RankingIsStableDescendingPermutation | trading/theta_analyzer.py:46-47 | a successful sort of the eligible rows is a permutation of them, is descending when every row has a percentage, and is stable |
| Ranking.Rank | trading/theta_analyzer.py:47-53 | the ranking step fails if and only if the sort would compare a missing percentage or fewer than five rows exist; the sort's `Unorderable` comes before `IndexOutOfRange` |
| Ranking.ExtremesOf | trading/theta_analyzer.py:49-53 | fails with `IndexOutOfRange` if and only if there are fewer than five rows; otherwise the top is the first five rows and the bottom the last five, from the last backwards |
| Ranking.RankingFailsBelowFive | trading/theta_analyzer.py:47-53 | under five eligible rows the report always raises: `Unorderable` if the sort compares a missing percentage, otherwise `IndexOutOfRange` |
| Ranking.ExtremesOfDescending | trading/theta_analyzer.py:49-53 | on a descending list of five or more rows, the top five descend, the bottom five ascend; no row outside the top five is above the fifth of them, and no row outside the bottom five is below the fifth of them |
| Ranking.RankingExtremes | trading/theta_analyzer.py:44-53 | with five or more rows all carrying a percentage, the report succeeds. The top five are the first five rows of the sorted input, in descending order. The bottom five are its last five rows, from the last backwards, in ascending order. Every other input row lies between the fifth of each. |

## Left out

- `scatter_plot` (lines 60-101): it draws a chart and reads the wall clock, which is user-interface work outside the analysis.
- The `print` calls: they are output only. The lines printed before an `IndexError` at lines 49-53 are not modelled.
- The brokerage client and `get_option_chains`: I/O. Each ticker's chain becomes a pure map from option symbol to delta and theta, so every fetch for a ticker sees the same data.
- A ticker mapped to `None` in the dictionary behaves like a missing ticker. The model has only the missing case.
- The option position class (`set_delta`, `set_theta`, its other fields) is not part of this model. The setters are taken to store their argument. The decay percentage starts as whatever value the caller's position held.
- Floating point: all arithmetic is on exact reals. Rounding, infinities and NaN are not modelled.
- Analyzer.ThetaAnalyzer: the position list is a snapshot taken at construction; the position objects stay shared with the caller. Python keeps a reference to the caller's list, so positions appended to it after construction would be summed and ranked by `analyze` without ever having been annotated; the model does not capture that.
- Analyzer.ThetaAnalyzer.constructor: requires a non-zero strike for every known-ticker position whose chain theta is truthy. The `ZeroDivisionError` line 29 would raise there is excluded, not modelled, because a constructor cannot return an error.
- Analyzer.ThetaAnalyzer.Analyze: the return value is the whole report rather than only the ratio, so that the printed predicted return and extremes are observable. The ratio is the report's first field and the `totalThetaDecayPercentage` field.
