# Ornithological potential: a Dafny model of the table and grid logic

The ornithological-potential pipeline works in stages:

- It lays a grid of square cells over a region's bounding box and keeps the cells that touch the region.
- It cleans eBird and iNaturalist bird observations.
- It assigns each observation to the grid cell that strictly contains it.
- It drops rare species and malformed scientific names.
- It counts the records of each species in each cell.
- It scores every clustered cell by a weighted species richness, normalised within its cluster.

This project models those stages in Dafny and proves what each promises. It models the packaged English scripts, the older English copies and the Spanish variants. Where the copies compute the same thing they share one model, and the differences (column names, prefixes, fixed constants) are parameters or constants of it.

Modules, one per concern:

| file | module | models |
|---|---|---|
| `tables.dfy` | `Tables` | DataFrames: values with NaN and infinities, rows keyed by column, boolean masks, `value_counts`-style counting, `df[cols]`, and `merge(..., how='left')` with pandas' `_x`/`_y` suffixes and NaN-matches-NaN keys |
| `text.dfy` | `Text` | `str.strip()`, `str.split()`/`' '.join`, ASCII `lower()`, case-insensitive `startswith`, and the `[\\/]` and `(?i)\b(?:sp\.\|spp\.)` patterns |
| `grid.dfy` | `Grid` | `calculate_cell_size`/`calcular_tamano_celda` (latitude step), the nested `while` scan as an imperative method, the cell rectangles, the boundary filter |
| `association.dfy` | `Association` | `detect_lat_lon_columns` (three copies), and `assign_grid_cell_ids` with its `within` join |
| `etl.dfy` | `Etl` | eBird projection-and-rename; iNaturalist accuracy filter, name normalisation and column selection |
| `utils.dfy` | `Utils` | rare-species listing and removal, the (cell × species) count pivot, `merge_model_results`/`grillar_res_mod`, `categorise_opacity` |
| `merge_sources.dfy` | `MergeSources` | `load_and_merge`, `filter_and_clean`, `count_species` and the stage order of `main` |
| `scores.dfy` | `Scores` | `compute_scores` (weights loop as a method) and `merge_scores` (per-cluster normalisation) |

Modelling choices:

- **Cells.** A cell is `Text`, `Number(real)`, `Infinite(sign)` or `Missing` (pandas NaN/None).
- **Errors.** Every exception the scripts raise is an `Err` of a `Result`: `KeyError`, `ValueError`, `TypeError`, the length mismatch of the `DataFrame` constructor, and `sys.exit(1)`.
- **Arithmetic.** Numbers are exact reals. Division follows IEEE doubles: x/0 is a signed infinity, and 0/0 and inf/inf are NaN. `max` and `sum` skip NaN, and the empty sum is 0.
- **External inputs.** Shapely's "rectangle intersects the boundary", reading a CSV and testing a file's existence are function parameters.

## Model

| member | source | states |
|---|---|---|
| Tables.LeftMerge | src/ornithological_potential/utils.py:141 | pandas' left merge. A key absent from either side is `KeyError(key)`. The result is well-formed with at least as many rows as the left table. Columns are the left ones then the right non-key ones, and without shared non-key columns exactly `left + right-minus-key`. The only other error is a suffix clash (`ValueError`) |
| Tables.LeftMergeUniqueKey | src/ornithological_potential/postprocess_grid.py:164-167 | With a unique right key, the merge keeps the left rows one for one. Unsuffixed left cells are unchanged. Unsuffixed right cells hold the matching right row's value, or NaN when no right row has that key |
| Tables.Project | src/ornithological_potential/etl_inat.py:143 | `df[cols]`: `KeyError` iff some listed column is absent, naming one of the absent columns. Otherwise exactly the listed columns in order, every row restricted to them, and the same number of rows |
| Tables.Filter | src/ornithological_potential/utils.py:84 | A boolean mask keeps exactly the rows satisfying it, each as many times as it occurs in the input, and drops every other row; never more rows than the input |
| Tables.FilterFilter | src/merge_sources.py:131-134 | Two masks applied one after the other select exactly what their conjunction selects |
| Text.StripIsTrimmedMiddle | src/merge_sources.py:130 | `strip()` returns the contiguous middle of the string: only blanks are removed, only at the ends, and the result neither starts nor ends with a blank |
| Text.StripIdempotent | src/merge_sources.py:130 | Stripping a stripped name changes nothing |
| Text.Tokens | src/ornithological_potential/etl_inat.py:115 | `split()` yields non-empty, blank-free words |
| Text.TokensOfJoin | src/ornithological_potential/etl_inat.py:115 | Splitting the single-space join of non-empty blank-free words returns exactly those words (the inverse of `' '.join`) |
| Text.FirstTwoWordsSpec | src/ornithological_potential/etl_inat.py:115 | `' '.join(x.split()[:2])` has as its words the first (at most) two words of `x`, and so at most two words |
| Text.FirstTwoWordsIdempotent | src/etl_inat.py:117 | Normalising an already normalised name changes nothing |
| Text.Lower | src/ornithological_potential/grid_association.py:62-63 | `lower()` restricted to ASCII letters keeps the length and lowers each character |
| Text.LowerOfLowercase | src/ornithological_potential/grid_association.py:62-63 | A name without upper-case letters is its own lower case |
| Text.RankMarkerExamples | src/merge_sources.py:133-134 | The word boundary is only required before the marker: "Larus sp.", "sp.x" and "Anas SPP." match; "Asp." does not |
| Grid.LatStep | src/grid_generation.py:98 | `lat_step * 111.32 == cell_km`; the step is positive iff `cell_km` is |
| Grid.FixedLatStepIsDefault | src/modulos/p1_grillado.py:40 | The first grid script's fixed `LAT_STEP = 5/111.32` is `LatStep` of `grillado.main`'s default cell side of 5 km (src/grillado.py:152) |
| Grid.StepBound | src/grid_generation.py:126-128 | The k-th value of a loop variable passes the inclusive `<=` test exactly for k below the step count, so each loop runs `Steps` times and terminates for a positive step |
| Grid.GenerateGrid | src/grid_generation.py:121-139 | The nested `while` loops produce exactly `Scan`: latitude-major rows, each restarting at `xmin`, ids counted up from 0 |
| Grid.Scan | src/grillado.py:86-101 | The scan has `RowCount × ColumnCount` corners: every latitude row has the same number of cells |
| Grid.CoordIsProduct | src/grid_generation.py:125-136 | The k-th value of a loop variable that starts at `lo` and grows by `step` each pass is `lo + k·step` |
| Grid.ScanMembers | src/modulos/p1_grillado.py:44-57 | The scan visits exactly the corners at lattice position (r, c) for r, c below the loop counts, with id `r·cols + c` |
| Grid.ScanIdsConsecutive | src/grid_generation.py:124-135 | The i-th corner of the scan has `grid_id` i: ids are 0, 1, …, n−1 in scan order |
| Grid.ScanWithinBounds | src/grid_generation.py:126-128 | Every corner lies in the closed bounding box; both upper bounds are inclusive |
| Grid.ScanOfTenDegreeBox | src/grillado.py:89-91 | A 10°×10° box with 1° steps yields 11×11 = 121 corners (both ends included) |
| Grid.CellBox | src/grid_generation.py:166 | `box(lon, lat, lon + lon_step, lat + lat_step)` contains its corner and has positive width and height |
| Grid.ToCells | src/grillado.py:116-131 | `df_to_geodf`/`df_a_geodf` give one cell per corner row, in order, keeping id and corner, with the rectangle `CellBox` |
| Grid.ScanCellsDisjoint | src/grid_generation.py:162-171 | The rectangles of two different scanned corners have disjoint interiors: no area is covered twice |
| Grid.DistinctCornersDisjoint | src/modulos/p1_grillado.py:62-67 | Corners at different lattice positions have rectangles with disjoint interiors |
| Grid.StepContaining | src/grid_generation.py:126-136 | Every coordinate in `[lo, hi]` lies in the step `[lo + k·step, lo + (k+1)·step]` of some visited k |
| Grid.ScanCoversBounds | src/grid_generation.py:121-171 | Every point of the bounding box lies in the rectangle of some scanned corner: the grid has no gaps |
| Grid.FilterInsideContour | src/grid_generation.py:190-192 | Keeps exactly the cells whose rectangle intersects the boundary, as an order-preserving subsequence with ids unchanged |
| Grid.ScanCellIdsIncreasing | src/grillado.py:87-99 | The ids of the scanned cells are strictly increasing in scan order |
| Grid.FilteredIdsIncreasing | src/grillado.py:144-146 | The boundary filter keeps the ids strictly increasing: it preserves order and never renumbers |
| Grid.RetainedIdsCanHaveGaps | src/modulos/p1_grillado.py:79-83 | Dropping the middle of three cells leaves ids 0 and 2: `reset_index(drop=True)` renumbers only the row index, not `grid_id` |
| Grid.BuildGrid | src/grid_generation.py:199-221 | The grid stage of `main`: the filtered cells of the scan; ids strictly increasing; every kept cell intersects the boundary and has its corner in the bounding box |
| Association.ColumnsWithPrefix | src/ornithological_potential/grid_association.py:62-63 | The comprehension keeps exactly the columns whose lower-cased name starts with the lower-cased prefix, in column order |
| Association.DetectLatLonColumns | src/ornithological_potential/grid_association.py:42-76 | `ValueError` for the latitude prefix unless exactly one column matches it, checked first; then the same for longitude. When each prefix has exactly one column, returns that (lat, lon) pair; on success each is the unique matching column |
| Association.DetectFailsWithoutMatch | src/grid_association.py:43-46 | No latitude candidate raises `ValueError` |
| Association.DetectFailsWhenAmbiguous | src/grid_association.py:43-46 | Two latitude candidates at different positions raise `ValueError` |
| Association.DetectLatLonColumnsSpanish | src/asociar_grilla.py:18-48 | The Spanish detector is the same check with the prefixes fixed to 'latitud' and 'longitud' |
| Association.EnglishNamesUnderSpanishPrefixes | src/asociar_grilla.py:32-37 | 'Latitude' carries only the latitude prefix 'latitud', 'longitude' only 'longitud' |
| Association.SpanishPrefixAcceptsEnglish | src/asociar_grilla.py:32-37 | The Spanish detector accepts the English names `["Latitude", "longitude"]` |
| Association.SpanishDetectionRejectsBothSpellings | src/asociar_grilla.py:39-46 | Columns 'latitud' and 'latitude' together make the Spanish detector raise `ValueError` |
| Association.FirstWithPrefix | src/asociar_grilla.py:88-91 | `next(..., None)`: `None` iff no column has the prefix; otherwise the first column that has it |
| Association.FirstMatchIgnoresAmbiguity | src/asociar_grilla.py:88-91 | For a table with columns 'latitud', 'latitude' and 'longitud', the detector raises `ValueError`, but the Spanish `assign_grid_cell_ids` takes 'latitud' and returns the joined frame without raising |
| Association.JoinRow | src/ornithological_potential/grid_association.py:139-150 | One observation yields one row per cell strictly containing its (lon, lat) point whose id is not NaN, stamped with that id and otherwise unchanged. The rows follow the grid order of the hit cells, one per hit |
| Association.SpatialJoin | src/grid_association.py:117-131 | Every output row is an input row stamped with the non-NaN id of a cell strictly containing its (lon, lat) point |
| Association.SpatialJoinOfOne | src/ornithological_potential/grid_association.py:139-151 | A single observation joins to exactly its `JoinRow` rows |
| Association.SpatialJoinAppend | src/ornithological_potential/grid_association.py:139-151 | The join of two tables placed one after the other is the join of the first followed by the join of the second. Observations keep their order, and each gives one row per containing cell |
| Association.SpatialJoinKeepsHits | src/ornithological_potential/grid_association.py:139-151 | Every observation strictly inside a cell appears in the output stamped with that cell's id |
| Association.SpatialJoinOnTilingAtMostOnce | src/ornithological_potential/grid_association.py:139-151 | Over cells with disjoint interiors, the join never has more rows than the input |
| Association.LoadObservations | src/ornithological_potential/grid_association.py:116-124 | A path is read, a DataFrame is used as given (an unmutated copy), and anything else is `TypeError` |
| Association.JoinedFrame | src/ornithological_potential/grid_association.py:139-151 | The joined frame has the observation columns plus the id column and the join's rows. An observation table that already has the id column fails, because sjoin suffixes the clash |
| Association.AssignGridCellIds | src/ornithological_potential/grid_association.py:83-153 | `KeyError` for a missing id field, checked before the input type. `TypeError` for an input that is neither a path nor a frame. Otherwise a detection `ValueError` is passed on, and on detection the result is exactly `JoinedFrame` of the detected columns: every row is a stamped hit |
| Association.AssignGridCellIdsSpanish | src/asociar_grilla.py:74-121 | The same `KeyError` and `TypeError`. The coordinate columns are the first with each prefix, with no ambiguity check; when a prefix has no column the lookup of `None` raises `KeyError`. When both prefixes have a column, the result is exactly `JoinedFrame` of those first matches |
| Association.EdgePointsAreDropped | src/ornithological_potential/grid_association.py:143 | A point on the shared edge of two cells is strictly within neither and is dropped |
| Etl.RenameEbirdRows | src/etl_ebird.py:86-93 | The renamed frame has exactly the five output columns, one row per input row, each output cell read from the mapped eBird column |
| Etl.SelectAndRenameColumns | src/etl_ebird.py:76-96 | `KeyError` iff one of the five eBird columns is missing. Otherwise exactly [common_name, scientific_name, latitude, longitude, observed_on], with the row count and order kept and each cell taken from the corresponding uppercase column |
| Etl.FilterByAccuracy | src/ornithological_potential/etl_inat.py:90 | Keeps exactly the rows with `positional_accuracy < max_accuracy` (NaN fails), as an order-preserving subsequence with the columns unchanged, and each kept row as many times as in the input. A missing or string column raises |
| Etl.AccuracyAtLimitRemoved | src/etl_inat.py:92 | A row whose accuracy equals the limit is removed: the comparison is strict |
| Etl.NormalizeName | src/ornithological_potential/etl_inat.py:114-116 | A string name becomes the join of its first (at most) two words. Anything else passes unchanged |
| Etl.NormalizeNameIdempotent | src/ornithological_potential/etl_inat.py:115 | Normalisation is idempotent and leaves at most two words |
| Etl.NormalizedRow | src/ornithological_potential/etl_inat.py:113-116 | The original name moves to `scientific_name_sub`, `scientific_name` holds its normal form, and every other cell is kept |
| Etl.NormalizeScientificNames | src/etl_inat.py:105-120 | Succeeds iff exactly one of `scientific_name`/`scientific_name_sub` is present (both: `ValueError` from the colliding rename; neither: `KeyError` from the lookup). It keeps the row count and per-row content as `NormalizedRow`, and the backup label takes the old label's position |
| Etl.SelectColumns | src/ornithological_potential/etl_inat.py:125-145 | Fails iff one of the five columns is missing. Otherwise exactly those five columns in order, with the same rows and cells |
| Etl.CleanInat | src/ornithological_potential/etl_inat.py:184-188 | The result is `SelectColumns` of `NormalizeScientificNames` of `FilterByAccuracy`, in that order, and an error of either earlier stage is passed on. So: the five output columns, at most as many rows as the input, and every name with at most two words |
| Utils.ListRareSpecies | src/ornithological_potential/utils.py:56-69 | `KeyError` without `scientific_name`. Otherwise each name occurring between 1 and `threshold` times (inclusive), exactly once. NaN names are not counted |
| Utils.RemoveRareSpecies | src/ornithological_potential/utils.py:72-85 | Keeps a record iff its name is NaN or occurs more than `threshold` times in the input. Survivors are an order-preserving subsequence with all fields unchanged, each kept record as many times as in the input (NaN-name records included) |
| Utils.KeptAsOftenAsFrequent | src/ornithological_potential/utils.py:84 | The mask `~isin(rare)` keeps each record exactly as often as it occurs when its name is NaN or frequent, and drops it otherwise |
| Utils.RemoveRareSpeciesSurvivorsFrequent | src/ornithological_potential/utils.py:83-84 | Every surviving species keeps its full input count, which is above the threshold |
| Utils.RemoveRareSpeciesIdempotent | src/utils.py:45-47 | A second pass of the rare filter removes nothing |
| Utils.SpeciesAtThresholdRemoved | src/utils.py:25 | A species seen exactly `threshold` times is listed as rare and all its records are removed (`<=`, although the docstring says "menos de") |
| Utils.CellNamesCount | src/ornithological_potential/utils.py:102-110 | Counting a name among a cell's names equals counting the records of that (cell, name) pair |
| Utils.MakeCountsDataFrame | src/ornithological_potential/utils.py:92-115 | `KeyError` for a missing `grid_id` or `scientific_name`. `ValueError` from `reset_index` iff some counted species is literally named `grid_id`. Otherwise `grid_id`, then one column per distinct string name, and one row per distinct non-NaN id. Each cell holds the number of records with that pair, 0 when there are none. Ids are unique |
| Utils.CountsRowsFacts | src/utils.py:64-73 | Each pivot row is keyed by a distinct counted id and holds, per species, the count of its (cell, species) records |
| Utils.CountsRowSum | src/utils.py:64-73 | A pivot row's counts sum to the number of counted records in that cell |
| Utils.MakeCountsDataFrameTotals | src/ornithological_potential/utils.py:102-110 | The counts of all rows sum to the number of counted records. Each row sums to its cell's record count |
| Utils.ModelFrame | src/ornithological_potential/utils.py:140 | `DataFrame({'grid_id': ids, name: labels})`. When `name` is `grid_id` the dict literal keeps one key: nothing raises, and the frame is the single column `grid_id` holding the labels. Otherwise a length mismatch raises, and on success the columns are [grid_id, name] with one row per id, and the key is unique when the ids are distinct |
| Utils.LabelFor | src/utils.py:100-106 | The label paired positionally with the id's first occurrence, or NaN when the id is not listed |
| Utils.MergeModelResults | src/ornithological_potential/utils.py:122-142 | Raises on a length mismatch or a missing `grid_id`. Otherwise it is well-formed and has at least the grid's rows |
| Utils.MergeModelResultsKeepsGrid | src/utils.py:102-108 | With distinct ids and a new label name, every grid row is kept once with its cells unchanged. The one new column holds `LabelFor` the row's id, NaN when absent |
| Utils.ModelMergeIsOk | src/ornithological_potential/utils.py:141 | Merging a two-column label frame with a new label name succeeds and appends exactly that column |
| Utils.ModelLabelLookup | src/ornithological_potential/utils.py:140-141 | The merge's lookup of a grid row's id yields the label `LabelFor` pairs with it |
| Utils.CategoriseOpacity | src/ornithological_potential/utils.py:229-248 | 0.2 iff score < 0.01; 0.4 iff in [0.01, 0.1); 0.8 iff in [0.1, 0.66); 0.98 otherwise. NaN fails every comparison and gets 0.98; a string raises `TypeError` |
| Utils.CategoriseOpacityMonotone | src/ornithological_potential/utils.py:242-248 | A larger score never gets a lower opacity |
| MergeSources.Concat | src/merge_sources.py:66 | `pd.concat(..., ignore_index=True)`: the columns of the first table, then the new ones of the second. Row count is the sum; first-table rows come first with their cells, then second-table rows; missing cells are NaN |
| MergeSources.LoadAndMerge | src/merge_sources.py:45-70 | `sys.exit(1)` iff either file is missing. Otherwise eBird rows first, then iNat rows, with the row count the sum and the cells kept |
| MergeSources.StripNames | src/merge_sources.py:130 | Each row's name is replaced by its strip (non-strings become NaN); nothing else changes |
| MergeSources.FilterAndClean | src/merge_sources.py:112-139 | Rare filter on the untrimmed names, then strip, then the slash and rank-marker masks. `KeyError` without `scientific_name`; `TypeError` iff a non-string name survives the rare filter. Otherwise every name is clean, and the rows are exactly the frequent input rows with the name stripped that pass both masks, in order. Each such stripped row occurs as often as among the stripped survivors of the rare filter |
| MergeSources.NonTextSurvivors | src/merge_sources.py:126-130 | A non-string name surviving the rare filter is exactly a frequent non-string input name: the `.str.strip()` error comes only from those |
| MergeSources.CleanedRowsClean | src/merge_sources.py:130-134 | Every name left by sanitation equals its strip and has no slash and no `sp.`/`spp.` marker; the rows keep their order |
| MergeSources.CleanedRowsFromInput | src/merge_sources.py:126-134 | A row survives sanitation iff it is a frequent input row, name stripped, passing both masks |
| MergeSources.RareFilterSeesUntrimmedNames | src/merge_sources.py:126-130 | "Aa" and "Aa " are counted separately before stripping, so with threshold 1 both are dropped although together they occur twice |
| MergeSources.Pipeline | src/merge_sources.py:188-209 | A missing input file exits with 1. Otherwise the result is `CleanAndCount` of the `AssignGridCellIds` result (id field `grid_id`) on `LoadAndMerge`'s table, and an error of any stage is passed on. The result is well-formed, `grid_id` first, and every species column name clean |
| MergeSources.CleanAndCount | src/merge_sources.py:144-158 | The result is `MakeCountsDataFrame` of `FilterAndClean`'s table, and a sanitation error is passed on. It is well-formed, with `grid_id` first and clean species columns |
| MergeSources.CleanedRowsKeyed | src/merge_sources.py:126-134 | When every input record has a cell id, every record left by sanitation has a cell id and a string name, so the count includes it |
| MergeSources.CleanAndCountTotals | src/merge_sources.py:144-158 | When every input record has a cell id, the species counts of all cells add up to the number of sanitised records |
| MergeSources.PipelineTotals | src/merge_sources.py:188-209 | End to end, the species counts of all cells add up to the number of gridded records that survive sanitation |
| MergeSources.CountsOfCleanNames | src/merge_sources.py:156 | A pivot of records whose names are all clean has only clean species columns |
| Scores.SeqMax | src/ornithological_potential/postprocess_grid.py:112 | `max` skipping NaN: NaN iff there is no numeric value. Otherwise it is one of the values and no value is greater |
| Scores.SkipNaNSum | src/ornithological_potential/postprocess_grid.py:123 | The NaN-skipping row sum is NaN or numeric |
| Scores.SeqMaxIgnoresNaN | src/ornithological_potential/postprocess_grid.py:158-161 | Dropping NaN values does not change the maximum |
| Scores.NormaliseBounds | src/ornithological_potential/postprocess_grid.py:112-113 | Dividing a non-negative series by its maximum: NaN stays NaN, an all-zero series gives NaN (0/0), and otherwise a value in [0, 1] |
| Scores.NormaliseReachesOne | src/postprocess_grid.py:112-113 | A non-negative series with a positive value has an element divided into exactly 1 |
| Scores.NormaliseAllZero | src/postprocess_grid.py:158-161 | A series of zeros and NaN divides into NaN everywhere |
| Scores.AssignWeights | src/ornithological_potential/postprocess_grid.py:106-119 | The `for` loop over `priority_species` (None read as []) builds exactly `Weights`: `float(priority_weight)` for listed species that are columns, 1.0 for all others, unlisted names ignored |
| Scores.ComputeScores | src/ornithological_potential/postprocess_grid.py:92-127 | `compute_scores` is the weights loop followed by `ScoresOf` with those weights |
| Scores.ScoresOf | src/ornithological_potential/postprocess_grid.py:109-125 | `KeyError('grid_id')` without the index column. `TypeError` iff a species cell is a string. Otherwise columns [grid_id, weighted_richness] with one row per counts row, each holding its id and the NaN-skipping sum of weight × count / column max |
| Scores.ProportionBounds | src/ornithological_potential/postprocess_grid.py:112-113 | With non-negative counts, a proportion is NaN for a NaN count or an all-zero column, and otherwise lies in [0, 1] |
| Scores.ProportionReachesOne | src/postprocess_grid.py:112-113 | A column with a positive count has a cell whose proportion is exactly 1 |
| Scores.SumOfFiniteTerms | src/ornithological_potential/postprocess_grid.py:120-123 | On finite counts and non-zero maxima, the NaN-skipping sum is the exact weighted sum Σ w·x/m |
| Scores.RealWeightedSumBounds | src/ornithological_potential/postprocess_grid.py:116-123 | With proportions in [0, 1] and non-negative weights, the weighted sum lies between 0 and the total weight |
| Scores.RichnessIsWeightedSum | src/postprocess_grid.py:120-123 | A cell's weighted richness with finite counts and non-zero maxima is `Number(Σ w·count/max)` |
| Scores.ScoresFitMerge | src/postprocess_grid.py:124-128 | The scores table has columns [grid_id, richness] and no string richness; unique input ids stay unique |
| Scores.ClusterFrame | src/ornithological_potential/postprocess_grid.py:150-152 | `df_calc`: the labelled grid rows only, in order, cut to `grid_id` and the label renamed `cluster` |
| Scores.MergeScores | src/ornithological_potential/postprocess_grid.py:136-169 | `KeyError` for a missing `grid_id` or `GaussianMixture`, or a scores table without `grid_id`. Otherwise well-formed with at least the grid's rows |
| Scores.ScoredFrame | src/ornithological_potential/postprocess_grid.py:164-166 | `calc[['grid_id', score]]`: one row per joined row with its id and its group score |
| Scores.JoinedIsOk | src/ornithological_potential/postprocess_grid.py:155 | The labelled cells merge with a [grid_id, richness] table without error or suffix, giving [grid_id, cluster, richness] |
| Scores.CalcFacts | src/ornithological_potential/postprocess_grid.py:150-155 | `calc` has one row per labelled grid cell in grid order, with its id, its label as `cluster`, and its looked-up richness (NaN when uncounted) |
| Scores.GroupsMatchClusters | src/ornithological_potential/postprocess_grid.py:158-161 | `groupby('cluster')` sees exactly the richness of the grid cells with that label, so the group maximum is that cluster's maximum |
| Scores.FinalMergeIsOk | src/ornithological_potential/postprocess_grid.py:164-167 | Merging [grid_id, score] into a grid without that column succeeds and appends exactly the score column |
| Scores.UnlabelledScore | src/ornithological_potential/postprocess_grid.py:151-167 | A grid cell without a label has no scored row, so the final merge gives it NaN |
| Scores.LabelledScore | src/ornithological_potential/postprocess_grid.py:158-167 | A labelled grid cell gets its richness divided by its cluster's maximum |
| Scores.MergeScoresIsFinalMerge | src/ornithological_potential/postprocess_grid.py:164-167 | `merge_scores` is the left merge of the grid with the scored labelled cells, whose ids are unique |
| Scores.MergeScoresSpec | src/ornithological_potential/postprocess_grid.py:136-169 | On a grid with unique ids and a scores table as `compute_scores` makes, `merge_scores` succeeds. It keeps every grid row and cell and appends exactly `richness_score`, which is NaN for unlabelled cells and otherwise richness / cluster maximum |
| Scores.ScoresOfAllRows | src/postprocess_grid.py:164-168 | Every grid row's `score_riqueza` is its expected score |
| Scores.InCluster | src/ornithological_potential/postprocess_grid.py:158-161 | A cell labelled `group` contributes its richness to that cluster's series |
| Scores.ClusterScoreBounds | src/postprocess_grid.py:158-161 | In a cluster with non-negative richness every member's score is NaN or in [0, 1] |
| Scores.ClusterMember | src/ornithological_potential/postprocess_grid.py:158-161 | Each position of a cluster's series belongs to a grid cell of that cluster, whose score is that value over the cluster maximum |
| Scores.ClusterScoreReachesOne | src/ornithological_potential/postprocess_grid.py:158-161 | A cluster with a positive richness has a member scored exactly 1 |
| Scores.AllZeroClusterIsNaN | src/postprocess_grid.py:158-161 | An all-zero (or NaN) cluster scores every member NaN: 0/0 |
| Scores.UncountedCellIsNaN | src/ornithological_potential/postprocess_grid.py:155-161 | A grid cell with no scores row gets NaN richness and a NaN score, and does not change its cluster's maximum |

## Left out

- File I/O, logging, argparse and `sys.exit` outside `load_and_merge` are not modelled. Reading a CSV or a GeoPackage is a function parameter, and writing files is left out.
- CRS reprojection (`to_crs`) is not modelled: all coordinates are taken to be in one reference system.
- The longitude step `lat_step / cos(mid_lat)` is floating-point trigonometry. It is a positive parameter of `Grid.GenerateGrid`.
- `round(..., 6)` is not modelled, and neither is float accumulation in the scan: a corner is the exact real `ymin + k·lat_step`.
- Signed zeros and NaN payloads are not modelled.
- Shapely's `intersects` against the boundary union is a predicate parameter of `Grid.FilterInsideContour`. Only the axis-aligned `within` test is modelled concretely.
- The spatial index inside `gpd.sjoin` is not modelled; the join is a linear search over the cells.
- The `index_right`/`geometry` columns are not modelled, nor is a clash between them and the observation columns.
- `select_best_k` (sklearn clustering), `generate_cluster_colors` (seaborn palette) and the map export scripts are left out.
- pandas dtypes are not modelled: nullable `Int64` casts, a key-dtype mismatch between merged columns, and MultiIndex flattening. Ids and names are cell values.
- Utils.MakeCountsDataFrame: species columns and rows are in first-occurrence order. `pivot_table` sorts the columns by name and the rows by `grid_id`, so the model does not state that order. A numeric `scientific_name` is left out of the count.
- Utils.ListRareSpecies: the result is in first-occurrence order, not `value_counts`' descending-count order.
- Association.PointOf: a coordinate held as a string gives no point, so the row is dropped. shapely's `Point` converts it with `float()`: a numeric string is parsed and joined, and any other string raises `ValueError`. The model does not capture either case. This happens when one non-numeric entry makes pandas read a whole coordinate column as strings.
- Text.Lower, Text.LowerChar, Text.IsWordChar and Text.HasRankMarker are ASCII-only. Python's `str.lower()` and `re` on `str` patterns are Unicode: `\w` and `\b` know accented letters, `(?i)` matches 'ſ' to 's', and `lower()` may change a string's length. For example, Python keeps "Xésp." because there is no word boundary before "sp.". The model sees a boundary after 'é' and drops the row. Names outside ASCII are therefore not described faithfully.
- MergeSources.FilterAndClean: a surviving non-string name is reported as `TypeError` in every case. The source raises two different errors:
  - When at least one surviving name is a string, `.str.strip()` turns the others into NaN and the later `.str.contains` mask raises `TypeError`.
  - When the column holds no strings at all (a numeric or boolean column, such as six records named `1.0` with threshold 5), `.str` refuses the column and raises `AttributeError` at src/merge_sources.py:130.
- Tables.Project: pandas' `KeyError` lists every missing column. The model names one of them (the body picks the first, but the contract does not say which).
- Scores.MergeScoresSpec requires unique grid ids and a scores table shaped as `compute_scores` returns it. The model does not describe the output for duplicate ids, beyond `Scores.MergeScores`' own contract.
- Scores.RichnessIsWeightedSum: only cells with finite counts and non-zero column maxima are described. Cells with NaN proportions are covered only by the NaN-skipping sum's definition.
- Scores.RealWeightedSumBounds: the [0, total weight] bound is proved for the exact weighted sum. It is not restated frame by frame.
- `src/merge_sources.py` as written stops with `AttributeError` at `grid_association.main` (line 94). The script's own directory comes first on `sys.path`, so `import grid_association` loads `src/grid_association.py`, which defines no `main`. `utils.remove_rare_species` (line 126) would fail the same way, since `src/utils.py` defines only the Spanish names. `MergeSources.Pipeline` models the evidently intended packaged functions: `remove_rare_species`, `make_counts_dataframe` and `assign_grid_cell_ids`.
- Grid.GenerateGrid requires a positive step. For `cell_km <= 0` the step is zero or negative, and the source's `while lat <= ymax` loop (src/grid_generation.py:124-136) never ends.

Notes where code and comments disagree (the model follows the code):

- `listar_spp_raras` is documented as "menos de" (fewer than) but uses `<=` (`Utils.SpeciesAtThresholdRemoved`).
- `crear_df_conteos` documents a `grid_cell` column but pivots on `grid_id`.
- `src/modulos/p1_grillado.py:82` says the ids are reassigned, but `reset_index(drop=True)` renumbers only the row index (`Grid.RetainedIdsCanHaveGaps`).
