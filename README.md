# Crustal-thickness coregistration, modelled in Dafny

This project models the spatial join in `lib/coregister_crustal_thickness.py`. The join attaches
time-dependent crustal-thickness raster data to point records (deposits or unlabelled points). It has two parts.

- **One time slice** (`coregister_crustal_thickness`):
  - keep the points whose `age (Ma)` equals the slice's time;
  - open that time's raster and resolve its axes (`lon`, else `x`; `lat`, else `y`);
  - mask out the NaN cells in row-major order;
  - stack the surviving cells' coordinates into a neighbour index;
  - query every point for the cells within the search radius, nearest first;
  - summarise the matched thickness values into six preallocated column arrays (mean, min, max,
    median, population standard deviation, count). A point with no neighbour keeps NaN and 0;
  - append the arrays and the derived `range = max - min` to the points.
- **The whole run** (`run_coregister_crustal_thickness`):
  - group the points by age;
  - join each group against its own time slice;
  - concatenate the joined groups;
  - sort the result by `label` then `age (Ma)` when there is a label column, by `age (Ma)` alone otherwise.

Modules, in dependency order:

- `Wrappers` (`wrappers.dfy`): `Option` (NaN is `None`) and `Result`.
- `Errors` (`errors.dfy`): the ways a slice or a run can raise.
- `Masking` (`masking.dfy`): numpy boolean-mask indexing of 1-D and 2-D arrays, with the surviving
  positions in row-major order as its specification.
- `Sorting` (`sorting.dfy`): a sort by a caller-supplied order, proved sorted and a permutation,
  and duplicate-free sequences.
- `Statistics` (`statistics.dfy`): `nanmean`, `nanmin`, `nanmax`, `nanmedian` and `nanstd` over
  exact reals once the NaN cells are gone, with their order bounds.
- `RasterIndex` (`raster_index.dfy`): reading the raster, the meshgrid and its mask, the index
  and the radius query. The query is specified by `IsRadiusResult`: every listed cell is within
  the radius, every cell within the radius is listed, none twice, nearest first. `QueryPoint` is
  a reference implementation proved to meet that specification.
- `SpatialJoin` (`spatial_join.dfy`): one time slice.
  - `Slice` states its result as a function.
  - `Coregister` computes the result imperatively and is proved equal to `Slice`. Its aggregation
    loop, `Aggregate`, writes one index at a time into the six arrays of the `StatArrays` class,
    which is the preallocated `arrays` dictionary; the method is proved equal to `ExpectedStats`.
- `Orchestrator` (`orchestrator.dfy`): grouping, the loop over the groups (`JoinAll`),
  concatenation and the final sort (`Run`, proved equal to `RunSpec`).
- `Scenarios` (`scenarios.dfy`): two concrete slices over a raster with one valid cell.

The function parameters stand for what the model does not compute itself:

- `open: real -> Option<Dataset>` is the raster file for a time; `None` means the file is missing.
- `dist: (Coord, Coord) -> real` is the haversine distance.
- `root: real -> real` is the floating-point square root. `IsSqrt(root)` says when it is a true
  square root; only the facts about `std` need it.

Three edge cases behave differently from what a reader might expect. The model follows the code:

- **A raster with no valid cell.** One might expect an empty index, so that every point gets a
  count of 0 and NaN. The code fits `NearestNeighbors` on zero samples, and scikit-learn raises
  on that. The model fails with `EmptyIndex`; `SpatialJoin.AllNaNRasterFails` states it.
- **An input with no rows.** One might expect zero rows in to give zero rows out. The code
  makes no group, and `pd.concat([])` raises. The model fails with `NothingToConcatenate`;
  `Orchestrator.RunOutcome` states it.
- **A query with no points.** In the code the query raises (`EmptyQuery`). The run never calls a
  slice with an empty group, so a run never fails this way (`Orchestrator.RunOutcome`).

## Model

| member | source | states |
|---|---|---|
| Masking.TrueIndicesSpec | lib/coregister_crustal_thickness.py:114-116 | the surviving positions of a 1-D mask are exactly its true positions, each once, in ascending order |
| Masking.SelectAt | lib/coregister_crustal_thickness.py:114-116 | masking keeps one element per true mask entry, and the k-th kept element is the element at the k-th true position |
| Masking.TruePositionsSpec | lib/coregister_crustal_thickness.py:114-116 | the surviving cells of a 2-D mask are exactly its true cells, each once, in row-major order |
| Masking.Select2At | lib/coregister_crustal_thickness.py:114-116 | 2-D masking keeps one element per true cell, and the k-th kept element is the one at the k-th true cell in row-major order |
| Masking.NoTruePositions | lib/coregister_crustal_thickness.py:114-116 | an all-false mask keeps no cell |
| RasterIndex.ResolveAxis | lib/coregister_crustal_thickness.py:104-111 | an axis resolves exactly when one of its candidate names is present, and it takes the first present name's array; otherwise it fails naming the last candidate tried |
| RasterIndex.ReadGrid | lib/coregister_crustal_thickness.py:102-111 | reading fails exactly when `z` is missing, or both `lon` and `x`, or both `lat` and `y`, naming the first of `z`, `x`, `y` that is missing; on success the grid is `z` with the `lon` (else `x`) and `lat` (else `y`) axes |
| RasterIndex.MaskGrid | lib/coregister_crustal_thickness.py:113-116 | masking can only fail with a shape mismatch |
| RasterIndex.MaskShape | lib/coregister_crustal_thickness.py:113-116 | masking succeeds exactly when `z` has one row per latitude and one column per longitude |
| RasterIndex.MaskedLengths | lib/coregister_crustal_thickness.py:113-116 | the masked longitudes, latitudes and thicknesses have the same length: one entry per non-NaN cell |
| RasterIndex.MaskedCell | lib/coregister_crustal_thickness.py:113-116 | the k-th masked triple is the longitude, latitude and value of the k-th non-NaN cell |
| RasterIndex.MaskAligned | lib/coregister_crustal_thickness.py:113-116 | the three masked arrays stay aligned: entry k of each belongs to the same non-NaN cell, for every k, and every non-NaN cell survives |
| RasterIndex.RadiusNeighbors | lib/coregister_crustal_thickness.py:135-140 | the query fails with `EmptyQuery` exactly when there is no query point; otherwise it gives one list per point, each meeting the radius-query specification |
| RasterIndex.QuerySound | lib/coregister_crustal_thickness.py:135-140 | every cell the reference query lists is in the index and within the radius, with its own distance |
| RasterIndex.QueryComplete | lib/coregister_crustal_thickness.py:135-140 | every cell within the radius is listed by the reference query |
| RasterIndex.QueryDistinct | lib/coregister_crustal_thickness.py:135-140 | the reference query lists no cell twice |
| RasterIndex.QueryPointMeetsSpec | lib/coregister_crustal_thickness.py:135-140 | the reference query lists the cells within the radius, each once, nearest first |
| RasterIndex.RadiusCount | lib/coregister_crustal_thickness.py:135-140 | a list meeting the query specification holds exactly the cells within the radius, so its length is their number |
| RasterIndex.RadiusMonotone | lib/coregister_crustal_thickness.py:135-140 | with a larger radius every listed cell is still listed, and the list is no shorter |
| Sorting.InsertionSortSorted | lib/coregister_crustal_thickness.py:64-68 | for a total preorder the sort's output is sorted (and, by `Sorting.InsertionSort`, a permutation of its input) |
| Sorting.InsertionSort | lib/coregister_crustal_thickness.py:68 | the output has the same length and the same multiset of elements as the input |
| Statistics.Min | lib/coregister_crustal_thickness.py:144 | the minimum is a matched value and no matched value is below it |
| Statistics.Max | lib/coregister_crustal_thickness.py:145 | the maximum is a matched value and no matched value is above it |
| Statistics.MeanBounds | lib/coregister_crustal_thickness.py:143 | the mean lies between the minimum and the maximum |
| Statistics.MedianBounds | lib/coregister_crustal_thickness.py:146 | the median lies between the minimum and the maximum |
| Statistics.VarianceNonnegative | lib/coregister_crustal_thickness.py:147 | the population variance is not negative |
| Statistics.StdIsRootOfVariance | lib/coregister_crustal_thickness.py:147 | for a true square root, the deviation is not negative and squares to the variance |
| Statistics.SingleValue | lib/coregister_crustal_thickness.py:142-149 | for one value, the mean, minimum, maximum and median are that value, the variance is 0, and so is the deviation for a true square root |
| SpatialJoin.SelectTimeSpec | lib/coregister_crustal_thickness.py:96-97 | the kept rows are exactly the rows of that age, in their original order, each once |
| SpatialJoin.SelectTimeAppend | lib/coregister_crustal_thickness.py:97 | one more row is kept at its own age and at no other |
| SpatialJoin.SelectTimeIdempotent | lib/coregister_crustal_thickness.py:96-97 | selecting an age twice keeps the same rows as selecting it once |
| SpatialJoin.SliceCells | lib/coregister_crustal_thickness.py:99-116 | a failure is a missing file for that time, a missing variable or a shape mismatch; on success the cell arrays are aligned |
| SpatialJoin.IndexedCell | lib/coregister_crustal_thickness.py:102-123 | index row c of a slice is (lats[j], lons[i]) and thickness c is z[j][i], for the c-th non-NaN cell (j, i) in row-major order of the raster opened for that time |
| SpatialJoin.StatArrays.constructor | lib/coregister_crustal_thickness.py:150-154 | six fresh arrays of the point count, every statistic NaN and every count 0 |
| SpatialJoin.StatArrays.Store | lib/coregister_crustal_thickness.py:163-166 | writes all six statistics of index i, and every other index keeps what it held |
| SpatialJoin.Aggregate | lib/coregister_crustal_thickness.py:158-166 | after the loop, row i holds the statistics of point i's matched values, and NaN with count 0 when it has none |
| SpatialJoin.Coregister | lib/coregister_crustal_thickness.py:72-175 | the imperative slice gives exactly the slice specified by `Slice`, errors included |
| SpatialJoin.MatchedStats | lib/coregister_crustal_thickness.py:158-166 | the count is the number of cells within the radius; with none, every statistic is NaN; otherwise min and max are values of such cells and bound all of them |
| SpatialJoin.StatsOrdered | lib/coregister_crustal_thickness.py:142-173 | with a match: every statistic is a number, min <= mean <= max, min <= median <= max, range = max - min >= 0 and std >= 0; with exactly one: mean = min = max = median, range 0 and std 0 |
| SpatialJoin.SliceOutcome | lib/coregister_crustal_thickness.py:96-140 | a slice fails with the raster's error, then with `EmptyIndex` when no cell survives, then with `EmptyQuery` when no point has that age, and succeeds exactly otherwise |
| SpatialJoin.AllNaNRasterFails | lib/coregister_crustal_thickness.py:113-125 | a raster of the right shape with only NaN cells makes the slice fail with `EmptyIndex` |
| SpatialJoin.SliceRows | lib/coregister_crustal_thickness.py:96-175 | a slice has one row per kept point, and row k carries kept point k unchanged |
| SpatialJoin.SliceRow | lib/coregister_crustal_thickness.py:135-173 | row k is its point joined with the statistics of a neighbour list that meets the query specification |
| SpatialJoin.SliceRowStats | lib/coregister_crustal_thickness.py:158-173 | row k's count is the number of cells within its radius; with none, all statistics and the range are NaN; otherwise min and max are values of such cells and bound all of them |
| SpatialJoin.SliceRowOrder | lib/coregister_crustal_thickness.py:168-173 | row k's range is max - min; with a match min <= mean, median <= max and range >= 0; with one match they coincide and range and std are 0 |
| SpatialJoin.StatsMonotone | lib/coregister_crustal_thickness.py:135-166 | for a larger radius the count does not fall, the minimum does not rise and the maximum does not fall |
| SpatialJoin.SliceRadiusMonotone | lib/coregister_crustal_thickness.py:135-173 | widening the radius keeps the slice successful with the same points, and each row's count, min and max change monotonically |
| SpatialJoin.SliceOfGroup | lib/coregister_crustal_thickness.py:96-97 | joining a pre-selected group gives the same slice as joining the whole table at that age |
| Orchestrator.DistinctAges | lib/coregister_crustal_thickness.py:60 | the ages of the rows, each exactly once |
| Orchestrator.GroupKeysSpec | lib/coregister_crustal_thickness.py:60 | the group keys ascend strictly and are exactly the ages present |
| Orchestrator.GroupsPartition | lib/coregister_crustal_thickness.py:60 | grouping by keys covering every age loses no row and duplicates none |
| Orchestrator.Collect | lib/coregister_crustal_thickness.py:52-61 | the results succeed together with all of their values in order, or fail with the first failing result's error |
| Orchestrator.CollectStopsAt | lib/coregister_crustal_thickness.py:52-61 | once a prefix of the joins has been collected, a failed join right after it makes the whole collection fail with that join's error |
| Orchestrator.CollectGrows | lib/coregister_crustal_thickness.py:52-61 | once a prefix of the joins has been collected, a successful join right after it appends its rows to the collected list |
| Orchestrator.CollectAll | lib/coregister_crustal_thickness.py:52-61 | collecting joins that all succeeded gives their values in order |
| Orchestrator.JoinGroup | lib/coregister_crustal_thickness.py:54-60 | one group's join is the slice of that group's rows at its age |
| Orchestrator.JoinAll | lib/coregister_crustal_thickness.py:52-61 | the loop over the groups gives exactly the collected list of every group's slice |
| Orchestrator.Run | lib/coregister_crustal_thickness.py:52-69 | the imperative run gives exactly the result specified by `RunSpec` |
| Orchestrator.StrLeTotal | lib/coregister_crustal_thickness.py:65 | any two labels are comparable in string order |
| Orchestrator.StrLeAntisymmetric | lib/coregister_crustal_thickness.py:65 | two labels each before the other are equal |
| Orchestrator.StrLeTransitive | lib/coregister_crustal_thickness.py:65 | the string order on labels is transitive |
| Orchestrator.RowLeTotal | lib/coregister_crustal_thickness.py:64-67 | any two rows are comparable under the sort key |
| Orchestrator.RowLeTransitive | lib/coregister_crustal_thickness.py:64-67 | the sort key order is transitive |
| Orchestrator.RunSorted | lib/coregister_crustal_thickness.py:64-68 | the output is sorted by label then age when there is a label column, by age alone otherwise |
| Orchestrator.JoinPoints | lib/coregister_crustal_thickness.py:54-60 | a group's successful join carries exactly the group's points, in order |
| Orchestrator.ConcatPoints | lib/coregister_crustal_thickness.py:63 | the concatenated joins carry the groups' points, group after group in key order |
| Orchestrator.PointsSort | lib/coregister_crustal_thickness.py:68 | sorting the joined rows keeps the multiset of their points |
| Orchestrator.RunPartition | lib/coregister_crustal_thickness.py:52-68 | every input row appears in the output exactly as often as in the input, so the row count is preserved |
| Orchestrator.RunOwnSlice | lib/coregister_crustal_thickness.py:52-61 | every output row is a row of the slice of the whole table at its own point's age |
| Orchestrator.GroupJoin | lib/coregister_crustal_thickness.py:54-60 | a group's join is the slice of the whole table at its age, and it never fails with `EmptyQuery` or `NothingToConcatenate` |
| Orchestrator.JoinsAreSlices | lib/coregister_crustal_thickness.py:52-61 | every group's join is the slice of the whole table at its key, and none fails with those two errors |
| Orchestrator.RunErrors | lib/coregister_crustal_thickness.py:52-63 | only a table with no rows fails with `NothingToConcatenate`, and no run fails with `EmptyQuery` |
| Orchestrator.RunSucceeds | lib/coregister_crustal_thickness.py:52-63 | a run succeeds exactly when the table has rows and the slice at every one of its ages succeeds |
| Orchestrator.RunFailsFirst | lib/coregister_crustal_thickness.py:52-63 | a failing run with rows fails with the error of the first age, in key order, whose slice fails |
| Orchestrator.RunOutcome | lib/coregister_crustal_thickness.py:52-63 | a run fails with `NothingToConcatenate` exactly when there is no row; otherwise it succeeds exactly when every age's slice succeeds, and else fails with the first failing age's error; it never fails with `EmptyQuery` |
| Scenarios.QueryOneCell | lib/coregister_crustal_thickness.py:135-140 | over a one-cell index the query lists that cell exactly when it is within the radius |
| Scenarios.MaskOneCell | lib/coregister_crustal_thickness.py:113-116 | of a two-cell row with one NaN, only the valid cell survives with its coordinates |
| Scenarios.OneValueStats | lib/coregister_crustal_thickness.py:142-149 | one matched value gives that value for every location statistic and a deviation of 0 |
| Scenarios.NearPoint | lib/coregister_crustal_thickness.py:72-175 | a point within the radius of the only valid cell gets count 1, every location statistic 35000, range 0 and deviation 0 |
| Scenarios.FarPoint | lib/coregister_crustal_thickness.py:72-175 | a point beyond the radius of every valid cell gets count 0 and NaN everywhere |

## Left out

- Reading NetCDF files through xarray: the raster for a time is the `open` parameter, a map from names to arrays.
- Building the filename from the time: it is I/O only, and it depends on Python's float formatting.
- Degree-to-radian conversion: coordinates and the radius are taken in whatever unit `dist` expects. The default radius of 3 degrees is `SpatialJoin.DefaultDistanceThreshold`.
- scikit-learn's neighbour structures and the haversine metric: the distance is the `dist` parameter, and the query is stated by its specification together with a reference implementation.
- Floating-point semantics: the statistics are over exact reals, and the square root is the `root` parameter.
- joblib's parallel dispatch: the groups are joined one after another, in key order, and the first failing group's error is the run's error.
- Reading the CSV file and building the DataFrame: the input is already a sequence of `Point` records.
- NaN ages, coordinates and labels in the input: these are not modelled; every age, position and label is a value.
- Columns other than age, position and label: they are carried as the opaque `others` field.
- Input columns that already bear one of the seven derived names: the code overwrites them with the new values, while the model keeps them in `others` and appends the new columns beside them.
- Orchestrator.RunSorted: it states sortedness, not the order of rows with equal keys. With a single sort key pandas' default sort is not stable, so that order is not promised. With a label column the multi-key sort is stable, and the model does not state which order equal rows then keep.
- The `int32` type of the count column: the count is an unbounded integer, because no point can match 2^31 cells.
- RasterIndex.MaskGrid: any `z` whose shape differs from (latitudes, longitudes) fails with one error, `ShapeMismatch`; numpy's own error messages are not modelled. A `z` with no rows carries no column count as a sequence of rows, so a zero-row raster masks successfully whatever its longitude axis, where numpy raises when the column counts differ; such a slice then fails with `EmptyIndex`.
- Locale and Unicode normalisation in the label order: labels compare character by character by code point, as Python's string order does.
