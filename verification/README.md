# Air pollution effects on trees: a Dafny model of the raster pipeline

The repository is a chain of ArcPy scripts. Each script reads the rasters an
earlier script saved into a file geodatabase (`.gdb`), computes new rasters
cell by cell, and saves them into another geodatabase. This project models
the scripts that do the computing, stages 2 to 9, together with the older
variants of stages 2, 6, 7 and 8:

| stage | script | what it computes | module |
|---|---|---|---|
| 2 | `s2_setzero_null.py` | basal-area rasters with 0 turned into NoData | `ZeroToNull` |
| 3 | `s3_ba_sum_natl_forest.py` | the national basal-area total (`CellStatistics SUM DATA`) | `NationalSum` |
| 4 | `s4_select_horn_spp_calc_proportion.py` | each Horn species' share of the national total | `HornProportion` |
| 5 | `s5_calculate_wilson_exceedance.py` | the species' share where deposition reaches the critical load | `Exceedance` |
| 6 | `s6a_…`, `s6b_…`, legacy `s6_…_noexc.py` | growth / survival effect `num / den - 1` of deposition | `Effects` |
| 7 | `s7_calculate_summary_rasters.py` (both) | the NoData-aware 5th percentile across a stack of rasters | `Percentile`, `Sorting` |
| 8 | `s8_basal_area_weight_growth_effects.py` (both) | species effects weighted by the species' basal-area share | `Weighting` |
| 9 | `s9a_…`, `s9b_…` | the deposition level at which growth drops 5% / survival 1% | `DepositionLevel` |

How the model is built:

- **Rasters.** A raster is a `Grid`, a sequence of cells `Option<real>`. `None`
  stands for NoData. A cell beyond a grid's extent reads as NoData (`Grids.At`).
  The Spatial Analyst tools the scripts call (`SetNull`, `Con`, `ExtractByMask`,
  `Divide`, `Times`, `Ln`, `Exp`, `Square`, `CellStatistics SUM`) are functions
  on grids in `Grids`. Each one's contract states which cells keep data and
  what value they hold.
- **Transcendentals.** `ln`, `exp` and `sqrt` are fields of a `Transcendentals`
  record that every formula takes as a parameter. The proofs rely only on the
  laws a lemma names in its `requires` (`ExpPositive`, `InverseLaws`). Nothing
  depends on a particular floating-point implementation.
- **Geodatabases.** A `Store` maps `Path(container, name)` to a grid.
  `ap.Exists` is membership and `.save` is a map update. A `ListRasters` result
  is a parameter.
- **Resumable loops.** Every script walks its listing, skips an output that
  already exists, and computes the rest. `Batch.Resume` is that loop, written
  once. It records the first failure that would stop the script (an `int()`
  of a name that is not a species code, an empty stack, an unbound variable)
  and keeps what was saved before it. The per-stage `RerunWritesNothing`
  lemmas prove the property these scripts were written for: after a complete
  run, running the script again saves nothing new.
- **Species table.** The response table of each response variable maps
  `spp_code` to a row. `SpeciesTable.ParamsFor` returns the row restricted to
  one element's columns (`{e}1`, `{e}2`, `min_{e}`, `max_{e}`, `{e}dep_max`).
- **Cross-stage handoff.** The `Pipeline` module checks that each stage lists
  the containers the previous stage writes.

## Model

| member | source | states |
|---|---|---|
| Grids.SetNull | python/s2_setzero_null.py:62-64 | a cell becomes NoData exactly when it was NoData or the where-clause holds of its value; every other cell keeps its value; the extent is unchanged |
| Grids.Con | python/s5_calculate_wilson_exceedance.py:141 | NoData in the condition raster gives NoData; otherwise the cell comes from the true raster when the test holds and from the false raster when it does not |
| Grids.ExtractByMask | python/s9a_deposition_level_for_growth_reduction.py:115 | a cell keeps its value exactly when both the raster and the mask have data there |
| Grids.Divide | python/s4_select_horn_spp_calc_proportion.py:69 | a cell has data exactly when both operands have data and the divisor is non-zero, and then holds the quotient |
| Grids.Times | python/s8_basal_area_weight_growth_effects.py:108 | a cell has data exactly when both operands do, and then holds the product |
| Grids.CellSum | python/s3_ba_sum_natl_forest.py:54 | each output cell is the sum of the data values found at that position across the stack |
| Grids.CellSumNoData | python/s3_ba_sum_natl_forest.py:54 | under the DATA option a summed cell is NoData exactly when every raster of the stack is NoData there |
| Grids.Ln | python/s6a_effects_eqn_growth.py:143 | a cell has data exactly when the input has a positive value there, and then holds its logarithm |
| Grids.Exp | python/s6a_effects_eqn_growth.py:147 | a cell has data exactly when the input does, and then holds the exponential |
| Grids.Sqrt | python/s9a_deposition_level_for_growth_reduction.py:151 | `** 0.5`: a cell has data exactly when the input has a non-negative value there, and then holds its square root |
| Grids.Square | python/s6a_effects_eqn_growth.py:145 | a cell has data exactly when the input does, and then holds the square |
| Grids.DivideBy | python/s6a_effects_eqn_growth.py:144 | dividing by a constant: a cell has data exactly when the input does and the constant is non-zero, and then holds the quotient |
| Grids.TimesBy | python/s6a_effects_eqn_growth.py:146 | multiplying by a constant keeps the data cells and scales their values |
| Grids.Plus | python/s9a_deposition_level_for_growth_reduction.py:150 | adding a constant keeps the data cells and shifts their values |
| Grids.Minus | python/s6a_effects_eqn_growth.py:167 | `raster - 1` keeps the data cells and lowers their values by the constant |
| Names.ShowNat | python/s4_select_horn_spp_calc_proportion.py:38 | `str` of a species code is a non-empty digit string whose decimal value is the code |
| Names.ParseShow | python/s5_calculate_wilson_exceedance.py:124 | `int()` reads back every code that `str` wrote |
| Names.LeadingZeroIgnored | python/s5_calculate_wilson_exceedance.py:124 | a leading `0` does not change the decimal value of a digit string |
| Names.ParseLeadingZero | python/s5_calculate_wilson_exceedance.py:124 | `int()` of a digit string with a leading `0` is `int()` of the string itself, so `"007"` parses as `"7"` |
| Names.FirstToken | python/s5_calculate_wilson_exceedance.py:124 | `split('_')[0]` is a prefix of the name without `_`, and is either the whole name or followed by `_` |
| Names.ParseInt | python/s5_calculate_wilson_exceedance.py:124 | `int()` succeeds exactly on an optional `-` or `+` followed by at least one digit; a digit string gives its decimal value (`Names.DigitsValue`); only a leading `-` gives a negative value; a `+` before a digit changes nothing, and a `-` before a digit negates |
| Names.SpeciesCode | python/s5_calculate_wilson_exceedance.py:124 | `int(name.split('_')[0][1:])`, no value where Python raises; what it returns for species names is stated by `Names.SpeciesCodeOfName` and `Names.SpeciesCodeKeptBySuffix` |
| Names.SpeciesCodeKeptBySuffix | python/s6a_effects_eqn_growth.py:74 | appending a `_…` suffix to a raster name does not change the species code later stages read from it |
| Names.SpeciesCodeOfName | python/s4_select_horn_spp_calc_proportion.py:39 | the code parsed from `s<code>` followed by any `_…` suffix is the code itself |
| Names.SpeciesNameInjective | python/s4_select_horn_spp_calc_proportion.py:38-39 | distinct codes give distinct `s<code>` names |
| ZeroToNull.SetZeroNull | python/s2_setzero_null.py:62-64 | a cell becomes NoData exactly when it was NoData or 0; other cells keep their values |
| ZeroToNull.Stage | python/s2_setzero_null.py:51-70 | the stage never stops with an error; when the listing does not hold 324 rasters it saves nothing; existing outputs are kept; every new output is the zero-to-NoData image of a listed raster under the same name |
| ZeroToNull.StageCoversListing | python/s2_setzero_null.py:51-66 | with 324 rasters listed, every listed raster has an output in `ba_null.gdb` afterwards |
| ZeroToNull.ExistingOutputKept | s2_setzero_null.py:53-55 | an output that already exists is left untouched |
| ZeroToNull.RerunWritesNothing | python/s2_setzero_null.py:55-57 | running the stage again on its own result changes nothing |
| NationalSum.Stage | python/s3_ba_sum_natl_forest.py:52-59 | with 324 rasters listed, the national total is added and nothing else changes; otherwise nothing is saved |
| NationalSum.NationalGrid | python/s3_ba_sum_natl_forest.py:54 | the national total has the first listed raster's extent; its cells are stated by `NationalSum.NationalCells` |
| NationalSum.NationalCells | python/s3_ba_sum_natl_forest.py:54 | each national cell is the DATA sum of the species cells there, and is NoData exactly when every species raster is NoData there |
| HornProportion.HornNames | python/s4_select_horn_spp_calc_proportion.py:30-39 | the Horn list holds one `s<code>` name per listed code, in order |
| HornProportion.HornListDistinct | python/s4_select_horn_spp_calc_proportion.py:30-40 | the Horn list has 94 names, no two equal |
| HornProportion.NationalRaster | python/s4_select_horn_spp_calc_proportion.py:56 | the national raster found is a listed raster named `ba_null_natl_forest`; none is found exactly when no listed raster has that name |
| HornProportion.SpeciesListing | python/s4_select_horn_spp_calc_proportion.py:58 | the `s*` listing holds exactly the listed rasters whose name starts with `s` |
| HornProportion.DivideLoop | python/s4_select_horn_spp_calc_proportion.py:64-76 | the counter rises by the number of Horn rasters visited; every Horn raster gets a proportion output; no other path is written and the rest of the store is kept |
| HornProportion.DivideLoopValue | python/s4_select_horn_spp_calc_proportion.py:69-75 | the saved proportion of a Horn raster is that raster divided by the national total |
| HornProportion.Stage | python/s4_select_horn_spp_calc_proportion.py:56-80 | the stage fails exactly when there is no national raster; otherwise the counter is the number of Horn rasters processed, and a warning is printed exactly when that is not 94 |
| HornProportion.StageOutputs | python/s4_select_horn_spp_calc_proportion.py:64-76 | every listed `s*` Horn raster's proportion is saved as its division by the national total, and every new output belongs to a listed Horn raster |
| HornProportion.CompleteListingNoWarning | python/s4_select_horn_spp_calc_proportion.py:79-80 | when all 94 Horn rasters are listed once each, the counter reaches 94 and no warning is printed |
| Exceedance.ExceedanceGrid | python/s5_calculate_wilson_exceedance.py:138-147 | a cell has data exactly when deposition is present and at least the critical load and the proportion there is present and non-zero, and then holds the proportion |
| Exceedance.ExceedanceShrinks | python/s5_calculate_wilson_exceedance.py:138-141 | raising the critical load only removes cells from the exceedance and never changes a surviving cell |
| Exceedance.Compute | python/s5_calculate_wilson_exceedance.py:124-147 | the raster fails exactly when its name does not parse as a species code; it is saved exactly when the table gives a critical load for the code, and then as the exceedance grid |
| Exceedance.Items | python/s5_calculate_wilson_exceedance.py:86-97 | the element and response loops visit every listed raster for both elements and both response variables |
| Exceedance.Stage | python/s5_calculate_wilson_exceedance.py:86-147 | existing outputs are kept, and each new output is the exceedance grid of a listed raster for some element, response variable and critical load |
| Exceedance.NewOutputsAreExceedances | python/s5_calculate_wilson_exceedance.py:100-147 | every raster the loop saves is an exceedance grid of a listed raster at its own output path |
| Exceedance.OutputNameInjective | python/s5_calculate_wilson_exceedance.py:100 | an output name determines the raster and the response variable it came from |
| Exceedance.TargetInjective | python/s5_calculate_wilson_exceedance.py:100-101 | two loop passes over distinct rasters never share an output path |
| Exceedance.StageCompletes | python/s5_calculate_wilson_exceedance.py:124 | if every listed name parses as a species code, the stage finishes without error |
| Exceedance.UnparsableNameStops | python/s5_calculate_wilson_exceedance.py:124 | a listed raster whose name is not a species code, reached without an existing output, stops the stage |
| Exceedance.StageWritesExceedance | python/s5_calculate_wilson_exceedance.py:128-147 | after a complete run, a species' output exists exactly when the table gives it a critical load, and then holds its exceedance grid |
| Exceedance.RerunWritesNothing | python/s5_calculate_wilson_exceedance.py:105-108 | a second run after a complete run saves nothing |
| Effects.WhereClauseIsBelowMin | python/s6a_effects_eqn_growth.py:113 | the Python `or` of the two clause strings keeps only `VALUE <min`, so deposition above `max` is never set to NoData |
| Effects.WhereClause | python/s6a_effects_eqn_growth.py:113 | the clause string built from `min_{e}` and `max_{e}`; `Effects.WhereClauseIsBelowMin` states that it is `VALUE <min` |
| Effects.MaskedDeposition | python/s6a_effects_eqn_growth.py:113-117 | a masked deposition cell has data exactly when deposition is present and at least `min_dep` and the species raster has data there; it keeps the deposition value |
| Effects.Response | python/s6a_effects_eqn_growth.py:142-147 | the `Ln`/`Divide`/`Square`/`Times`/`Exp` chain; `Effects.ResponseCell` states its cells |
| Effects.Reference | python/s6a_effects_eqn_growth.py:155-156 | `Con(masked > dep_max, dep_max / k1, min_dep / k1)`; `Effects.OperandsCell` and `Effects.AboveMaximumUsesDepMax` state its cells |
| Effects.EffectGrid | python/s6a_effects_eqn_growth.py:113-167 | `Divide(num, den) - 1`; `Effects.EffectCell` states it cell by cell against the per-cell formula |
| Effects.ResponseCell | python/s6a_effects_eqn_growth.py:142-147 | the response grid is, cell by cell, `exp(c·(ln(x)/k2)²)` where it is defined and NoData elsewhere |
| Effects.OperandsCell | python/s6a_effects_eqn_growth.py:142-161 | the numerator operand is deposition over `k1` and the denominator operand is the reference deposition over `k1`, at exactly the cells that pass the mask |
| Effects.RatioCell | python/s6a_effects_eqn_growth.py:166-167 | the effect cell is `num / den - 1` where both have data and `den` is non-zero, NoData elsewhere |
| Effects.EffectCell | python/s6a_effects_eqn_growth.py:113-167 | the whole effect grid is, cell by cell, NoData outside the species or deposition data and the per-cell effect formula inside |
| Effects.NoEffectAtMinimum | python/s6a_effects_eqn_growth.py:155-166 | at deposition equal to `min_dep` (with `dep_max` at or above it) the effect is exactly 0 |
| Effects.AboveMaximumUsesDepMax | python/s6a_effects_eqn_growth.py:155-156 | above `dep_max` the reference deposition is `dep_max` (or `min_dep` when `dep_max` is empty) |
| Effects.Compute | python/s6b_effects_eqn_survival.py:98-167 | the raster fails exactly when its name is not a species code, is saved exactly when the table row exists with a critical load, and what is saved is the effect grid with that row's `k1` |
| Effects.TargetInjective | python/s6a_effects_eqn_growth.py:74-76 | distinct rasters of a listing never share an output path |
| Effects.StageCompletes | python/s6b_effects_eqn_survival.py:98 | if every listed name parses as a species code, the stage finishes without error |
| Effects.UnparsableNameStops | python/s6b_effects_eqn_survival.py:98 | a raster whose name is not a species code, reached without an existing output, stops the stage |
| Effects.Stage | python/s6a_effects_eqn_growth.py:64-168 | existing outputs are kept, and each new output is the effect grid of a listed raster whose row has a critical load, saved at that raster's own output path |
| Effects.NewOutputsAreEffects | python/s6a_effects_eqn_growth.py:74-168 | every raster the loop saves is the effect grid of a listed raster with a critical load, at its own output path |
| Effects.StageWritesEffect | python/s6b_effects_eqn_survival.py:105-167 | after a complete run, a species' output exists exactly when its row has a critical load, and holds the effect grid with the script's coefficient (-0.5 growth, -5.0 survival) |
| Effects.ExistingOutputKept | s6_effects_eqn_growth_noexc.py:77-80 | an output that already exists, under the legacy `_reduction` name too, is left untouched |
| Effects.RerunWritesNothing | python/s6b_effects_eqn_survival.py:78-81 | a second run after a complete run saves nothing |
| Sorting.Sort | python/s7_calculate_summary_rasters.py:104 | the values come out ascending and are a permutation of the input |
| Sorting.AscendingUnique | python/s7_calculate_summary_rasters.py:104 | two ascending arrangements of the same values are the same sequence |
| Sorting.SortForgetsOrder | python/s7_calculate_summary_rasters.py:104 | inputs that are permutations of each other sort to the same sequence |
| Sorting.SortEnds | python/s7_calculate_summary_rasters.py:104 | the first sorted value is a least input and the last a greatest |
| Percentile.Interpolated | python/s7_calculate_summary_rasters.py:104 | linear interpolation at rank `(n-1)·p/100` lies between the least and the greatest sorted value |
| Percentile.NanPercentile | python/s7_calculate_summary_rasters.py:104 | the percentile is undefined (NaN) exactly when no value is left |
| Percentile.NanPercentileBounds | python/s7_calculate_summary_rasters.py:104 | the percentile of the values lies between their minimum and their maximum |
| Percentile.NanPercentileForgetsOrder | python/s7_calculate_summary_rasters.py:104 | the percentile does not depend on the order of the values |
| Percentile.NanPercentileOfEqual | python/s7_calculate_summary_rasters.py:104 | the percentile of values that are all equal is that value |
| Percentile.Valid | python/s7_calculate_summary_rasters.py:84-99 | a cell contributes no value exactly when it is NoData or masked as close to the 100000 fill value |
| Percentile.FillValueDropped | python/s7_calculate_summary_rasters.py:98 | a data value within 1 of 100000 is masked just as NoData is |
| Percentile.Masked | python/s7_calculate_summary_rasters.py:98 | `masked_values` masks a value whose distance from 100000 is at most `1e-8 + 1e-5·100000`; `Percentile.FillValueDropped` states what that drops |
| Percentile.StackValues | python/s7_calculate_summary_rasters.py:82-99 | a cell's column keeps at most one value per raster; `Percentile.StackValuesMembers` states which values |
| Percentile.StackValuesMembers | python/s7_calculate_summary_rasters.py:84-99 | a value is in a cell's stack exactly when some raster has that unmasked value at the cell |
| Percentile.StackValuesForgetOrder | python/s7_calculate_summary_rasters.py:84-99 | the values stacked at a cell are the same multiset whatever order the rasters are listed in |
| Percentile.PercentileGrid | python/s7_calculate_summary_rasters.py:104-106 | the output has the extent of the first listed raster |
| Percentile.PercentileCell | python/s7_calculate_summary_rasters.py:84-106 | an output cell is NoData exactly when no raster has an unmasked value there; otherwise it lies between two of the stacked values |
| Percentile.PercentileForgetsOrder | s7_calculate_summary_rasters.py:67-83 | the percentile raster does not depend on the listing order of the stack |
| Percentile.OutputNamesDistinct | python/s7_calculate_summary_rasters.py:62 | the four aggregates get four different output names |
| Percentile.Stage | python/s7_calculate_summary_rasters.py:57-107 | existing aggregates in `aggregate.gdb` are kept, and each new output is the percentile grid of the non-empty listing of its own aggregate's input container |
| Percentile.NewOutputsArePercentiles | python/s7_calculate_summary_rasters.py:57-107 | every raster the loop saves is the percentile grid of the listing of the aggregate whose output path it is |
| Percentile.Compute | python/s7_calculate_summary_rasters.py:89-107 | an aggregate fails exactly when its input container lists no raster (`CellStatistics` of an empty list), and otherwise saves the percentile grid of that listing |
| Percentile.StageWritesPercentile | python/s7_calculate_summary_rasters.py:59-107 | after a complete run, each missing aggregate is saved as the percentile grid of a non-empty listing of its input container |
| Percentile.EmptyListingStops | python/s7_calculate_summary_rasters.py:89 | a missing aggregate whose input container lists no raster stops the stage |
| Percentile.StageCompletes | python/s7_calculate_summary_rasters.py:57-61 | if every input container lists at least one raster, the stage finishes without error |
| Percentile.RerunWritesNothing | python/s7_calculate_summary_rasters.py:64-67 | a second run after a complete run saves nothing |
| Weighting.LastMatchSpec | python/s8_basal_area_weight_growth_effects.py:102-109 | the last saved product comes from the last listed raster with the matching code, and there is none exactly when no raster matches |
| Weighting.LastMatch | python/s8_basal_area_weight_growth_effects.py:102-109 | the raster the repeated overwrites end on; `Weighting.LastMatchSpec` states which one |
| Weighting.ScanOutputMatches | python/s8_basal_area_weight_growth_effects.py:102-109 | what the scan leaves saved is what was saved before it, or the effect times some candidate raster with the effect's code |
| Weighting.Scan | python/s8_basal_area_weight_growth_effects.py:102-109 | the inner scan fails exactly when some listed name is not a species code; otherwise its output is the product with the last matching raster, or the earlier one when none matches |
| Weighting.LastMatchTwice | python/s8_basal_area_weight_growth_effects.py:99-102 | scanning the same listing twice (once per `ws`) ends on the same raster as scanning it once |
| Weighting.LastMatchDistinct | python/s8_basal_area_weight_growth_effects.py:104-106 | when codes are distinct, the match for a code is the one raster carrying it |
| Weighting.Items | python/s8_basal_area_weight_growth_effects.py:70-76 | the loops visit every effect raster of both elements |
| Weighting.TargetInjective | python/s8_basal_area_weight_growth_effects.py:82-85 | distinct effect rasters never share an output path |
| Weighting.Compute | python/s8_basal_area_weight_growth_effects.py:77-109 | fails exactly when the effect raster's name or some candidate's name is not a species code; when all parse, saves the product of the effect with the last candidate of its species, and nothing if there is none; whatever it saves is the product with some candidate of that species |
| Weighting.Stage | python/s8_basal_area_weight_growth_effects.py:70-109 | existing outputs are kept, and each new output, saved at a listed effect raster's own path, is that effect times a candidate raster of the same species |
| Weighting.NewOutputsAreWeighted | python/s8_basal_area_weight_growth_effects.py:70-109 | every raster the loop saves is a listed effect times a candidate raster with the effect's species code |
| Weighting.CorrectedWritesProduct | python/s8_basal_area_weight_growth_effects.py:98-109 | with the proportion container listed, an output exists exactly when a proportion raster matches the code, and holds proportion times effect |
| Weighting.CorrectedWeightsBySpecies | python/s8_basal_area_weight_growth_effects.py:98-109 | with the proportion container listed, each effect raster is weighted by the proportion raster of its own species |
| Weighting.AsWrittenSquaresEffect | python/s8_basal_area_weight_growth_effects.py:98-109 | as written, each effect raster's output is the effect multiplied by itself |
| Weighting.AsWrittenCounterexample | s8_basal_area_weight_growth_effects.py:81-92 | one species with proportion 0.2 and effect 0.5 saves 0.25 as written and 0.1 when corrected |
| Weighting.StageCompletes | python/s8_basal_area_weight_growth_effects.py:77 | if every listed name parses as a species code, the stage finishes without error |
| Weighting.RerunWritesNothing | python/s8_basal_area_weight_growth_effects.py:88-91 | a second run after a complete run saves nothing |
| DepositionLevel.DepMaxGrid | python/s9a_deposition_level_for_growth_reduction.py:112-115 | the masked grid holds `dep_max` at exactly the species' data cells |
| DepositionLevel.LevelCell | python/s9a_deposition_level_for_growth_reduction.py:138-156 | the level grid is, cell by cell, the per-cell level formula where the masked grid has data, NoData elsewhere |
| DepositionLevel.UniformLevel | python/s9a_deposition_level_for_growth_reduction.py:112-156 | since the masked grid is constant, the level is the same number at every data cell of the species |
| DepositionLevel.LevelExponent | python/s9a_deposition_level_for_growth_reduction.py:138-156 | at the computed level, the species' response exponent is the one at `dep_max` plus the left term over `k2²` |
| DepositionLevel.PeriodMatchesCoefficient | python/s9b_deposition_level_for_survival_reduction.py:150 | the period `t` (1 for growth, 10 for survival) is `-2` times the effect coefficient of stage 6 |
| DepositionLevel.CorrectedLevelReducesResponse | python/s9a_deposition_level_for_growth_reduction.py:143-147 | with the `k2²` factor applied, the level lowers the response from `dep_max` by exactly the factor `0.95` (growth) or `0.99` (survival) |
| DepositionLevel.AsWrittenLevelMissesReduction | python/s9a_deposition_level_for_growth_reduction.py:145-148 | as written (`k2²` computed but unused), with `k2 = 2` the response is lowered by `ln(keep)/4` instead of `ln(keep)` |
| DepositionLevel.LeftTerm | python/s9a_deposition_level_for_growth_reduction.py:143-148 | `-2·ln(keep)/t`, with `k2²` as written or applied; `DepositionLevel.CorrectedLevelReducesResponse` and `DepositionLevel.AsWrittenLevelMissesReduction` state what each gives |
| DepositionLevel.LevelGrid | python/s9a_deposition_level_for_growth_reduction.py:138-156 | `Times(k1, Exp(Power(left + Square(Ln(Divide(masked, k1))), 0.5)))`; `DepositionLevel.LevelCell` states its cells |
| DepositionLevel.Compute | python/s9a_deposition_level_for_growth_reduction.py:99-159 | the raster fails exactly when its name is not a species code; it is saved exactly when its row has a critical load and a non-zero `dep_max`, and what is saved is the level grid with that row's `k1` and the chosen left term over the species' own masked `dep_max` |
| DepositionLevel.Items | python/s9a_deposition_level_for_growth_reduction.py:59-71 | the loops visit every listed raster for both elements |
| DepositionLevel.TargetInjective | python/s9a_deposition_level_for_growth_reduction.py:74-75 | distinct rasters never share an output path |
| DepositionLevel.StageCompletes | python/s9a_deposition_level_for_growth_reduction.py:99 | if every listed name parses as a species code, the stage finishes without error |
| DepositionLevel.UnparsableNameStops | python/s9b_deposition_level_for_survival_reduction.py:99 | a raster whose name is not a species code, reached without an existing output, stops the stage |
| DepositionLevel.Stage | python/s9a_deposition_level_for_growth_reduction.py:59-159 | with the second cursor skipping a zero `dep_max`, and the left term as written (`AsWritten`) or with the `k2²` factor (`WithK2`): existing outputs are kept, and each new output is the level grid, with that left term, of a listed raster whose row has `k1` and a non-zero `dep_max`, at its own output path |
| DepositionLevel.NewOutputsAreLevels | python/s9a_deposition_level_for_growth_reduction.py:74-159 | for either left term, every raster the loop with the skip saves is the level grid of such a listed raster, at its own output path |
| DepositionLevel.StageWritesLevel | python/s9a_deposition_level_for_growth_reduction.py:105-159 | for either left term, after a complete run with the skip, an output exists exactly when the row has a critical load and a non-zero `dep_max`, and holds the level grid of that species' own `dep_max`; with `AsWritten` this differs from the script only in the skip |
| DepositionLevel.RerunWritesNothing | python/s9b_deposition_level_for_survival_reduction.py:79-82 | a second run after a complete run saves nothing |
| DepositionLevel.StepAsWritten | python/s9a_deposition_level_for_growth_reduction.py:105-131 | as written, a non-zero `dep_max` rebinds the masked grid; a level is computed exactly when the row has `k1` and `dep_max`; the only failure is an unbound masked grid |
| DepositionLevel.RunAsWritten | python/s9a_deposition_level_for_growth_reduction.py:71-159 | as written, existing outputs are kept; `DepositionLevel.AsWrittenNewOutputs` states what it saves |
| DepositionLevel.AsWrittenNewOutputs | python/s9a_deposition_level_for_growth_reduction.py:105-156 | as written, every new output is the level grid with the row's own `k1` and the left term as written, over the masked `dep_max` that `rasObj2` held on entry or that the loop assigned for some listed raster with a non-zero `dep_max` |
| DepositionLevel.StageAsWritten | python/s9a_deposition_level_for_growth_reduction.py:59-159 | as written, over both elements: existing outputs are kept, and each new output is the level grid with the row's own `k1` and the left term as written, over the masked `dep_max` of some listed raster with a non-zero `dep_max`, which need not be its own |
| DepositionLevel.AsWrittenIgnoresK2 | python/s9b_deposition_level_for_survival_reduction.py:147-150 | as written, the saved level does not depend on `k2` |
| DepositionLevel.AsWrittenAgreesWithoutZeroDepMax | python/s9a_deposition_level_for_growth_reduction.py:105-131 | when no row has `dep_max == 0`, the as-written loop is the resumable loop with the as-written formula |
| DepositionLevel.AsWrittenStageAgrees | python/s9a_deposition_level_for_growth_reduction.py:105-131 | when no listed species has `dep_max == 0`, the script as written saves exactly what the stage with the skip and the left term as written saves |
| DepositionLevel.StaleMaskedGridReused | python/s9a_deposition_level_for_growth_reduction.py:107-131 | as written, a species with `dep_max == 0` after one with a non-zero `dep_max` is saved with the earlier species' masked grid, where the corrected stage saves nothing |
| DepositionLevel.UnboundMaskedGridStops | python/s9b_deposition_level_for_survival_reduction.py:106-140 | as written, a first species with `dep_max == 0` and a critical load stops the script on the unbound masked grid |
| Pipeline.EffectsFeedWeighting | python/s8_basal_area_weight_growth_effects.py:72 | stage 8 lists the containers the growth effect scripts save into, in both versions |
| Pipeline.GrowthLevelsFeedPercentile | python/s7_calculate_summary_rasters.py:59 | stage 7 lists the growth levels where stage 9a saves them |
| Pipeline.SurvivalLevelsMissPercentile | python/s9b_deposition_level_for_survival_reduction.py:75 | stage 9b saves survival levels in `…_survival_deposition_1_red_check.gdb`, not in the container stage 7 lists |
| Pipeline.LegacyEffectsFeedPercentile | s7_calculate_summary_rasters.py:47 | the legacy stage 7 lists the containers the legacy growth effect script saves into |
| Batch.Resume | python/s5_calculate_wilson_exceedance.py:97-147 | the resumable loop keeps every existing output, and each new output is the result of some item at that item's own path |
| Batch.ResumeWrites | python/s5_calculate_wilson_exceedance.py:105-147 | after a complete run, an item whose output was missing has it saved exactly when its computation produced one |
| Batch.ResumeStops | python/s5_calculate_wilson_exceedance.py:124 | an item whose computation fails, reached without an existing output, stops the run |
| Batch.ResumeCompletes | python/s5_calculate_wilson_exceedance.py:97-147 | if no item's path or computation fails, the run finishes without error |
| Batch.CompletedRunSettles | python/s5_calculate_wilson_exceedance.py:105-108 | after a complete run, every item either has its output or produces none |
| Batch.RerunWritesNothing | python/s5_calculate_wilson_exceedance.py:105-108 | a run started from a complete run's result finishes at once and changes nothing |

## Left out

- Stage 1 (`s1_ba_export_to_single_gdb.py`) is not part of this model: it copies rasters between formats.
- Environment settings are not modelled: cell size, snap raster and coordinate systems. Rasters of one stage are taken to share a cell alignment.
- Geodatabase creation, table import, timing and all printing are not modelled.
- `python/s4_select_horn_spp_calc_proportion.py:74` has a stray `0` before a string in a `print` call, and `python/s6a_effects_eqn_growth.py:71` ends a `print` argument list with `, \)`. Python rejects both as syntax errors, so neither script runs as written. Printing is not modelled, so the model (`HornProportion`, and `Effects` with the growth script) follows the evident intent: the scripts as they would run with those `print` calls repaired.
- `ListRasters` results are parameters. Their order and the wildcard's case rules are the geodatabase's business.
- `ln`, `exp` and `sqrt` are uninterpreted. Floating-point rounding is not modelled: cell values are reals.
- The search cursors are modelled as one row per species code. A table with two rows for one code is not modelled.
- `{e}2` (`k2`), `min_{e}` and `max_{e}` are assumed present in every row that has a critical load (`SpeciesTable.Params` holds them as plain reals). The scripts read them unconditionally: an empty `k2` would make `Divide(…, element2)` at `python/s6a_effects_eqn_growth.py:144` and `Square(element2)` at `python/s9a_deposition_level_for_growth_reduction.py:145` raise, and an empty `min_{e}` would change the where-clause at `python/s6a_effects_eqn_growth.py:113`. The model does not have that failure. `Effects.ResponseCell`, `DepositionLevel.LevelExponent` and `DepositionLevel.AsWrittenIgnoresK2` rely on a present `k2`.
- Names.SpeciesCode: the code is parsed as `int()` parses it for an optional leading `-` or `+` followed by decimal digits, so `s-5_proportion` gives code -5. Surrounding whitespace and underscores between digits, which `int()` also accepts, are not modelled. No raster name contains them, and an underscore cannot reach the parse after `split('_')`.
- Percentile.PercentileGrid: the output extent is the first raster's extent. The `CellStatistics MEDIAN` extent and the `NumPyArrayToRaster` georeferencing are not modelled, and neither are stacks of rasters with different extents.
- Percentile.NanPercentile: numpy's default `linear` method is modelled as `lo + t·(hi - lo)`. The float evaluation order numpy uses is not modelled.
- Percentile.ListRasters: a container that does not exist is treated as one that lists no raster, so the stage stops with an empty stack.
- `s9a` never sets the workspace (line 65 is commented out). The listing is modelled as the proportion container, which is what `s9b` lists.
- The total deposition rasters are a parameter (`SpeciesTable.Deposition`).

## Findings

| source | as written | input that shows it | evidently intended | confidence | as-written member | corrected member |
|---|---|---|---|---|---|---|
| python/s8_basal_area_weight_growth_effects.py:98-109 | the inner `ListRasters()` lists the current workspace, which is still the effect container, so each effect raster is multiplied by itself | one species, proportion 0.2 and effect 0.5 in one cell: 0.25 is saved | weight each effect by the proportion raster of the same species: 0.1 | high (not executed) | Weighting.AsWrittenCounterexample | Weighting.CorrectedWeightsBySpecies |
| python/s9a_deposition_level_for_growth_reduction.py:145-148 | `n2_squared` and `multiply_element_2` are computed, but `divide_t` divides `multiply_element`, so the `k2²` factor is dropped (likewise `python/s9b_deposition_level_for_survival_reduction.py:147-150`) | any species with `k2 = 2`: the response at the level is lowered by `ln(0.95)/4` instead of `ln(0.95)` | the level at which the response is exactly 95% (99%) of that at `dep_max` | high (not executed) | DepositionLevel.AsWrittenLevelMissesReduction | DepositionLevel.CorrectedLevelReducesResponse |
| python/s9a_deposition_level_for_growth_reduction.py:105-131 | a row with `dep_max == 0` skips rebinding `rasObj2`, but the second cursor still computes a level (also `python/s9b_deposition_level_for_survival_reduction.py:104-127`) | species A with `dep_max = 30` listed before species B with `k1` present and `dep_max = 0`: B's output is computed from A's mask (first in the listing: a NameError) | skip species with `dep_max == 0` in the second cursor too (`DepositionLevel.Stage` with the left term as written differs from the script only in this) | medium (not executed) | DepositionLevel.StaleMaskedGridReused | DepositionLevel.StageWritesLevel |
