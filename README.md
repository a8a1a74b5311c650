# CCTV infrared camera coverage — verified model of the analysis core

This project models the analysis core of `script_main.py`. That script estimates how well a
city's CCTV cameras see a neighbourhood at night. It runs in five steps:

1. It reads a text file of camera coordinates (8 lines per camera) into a map from camera
   key to point (`Buffer`).
2. It keys the rows of an attribute table so that they line up with those cameras
   (`Attributes`).
3. It joins the two tables (`MergeSHP`) and drops the all-null columns after the
   building overlay (`InputData`).
4. For each zone it stamps the field-of-view fragments with their area, count and total
   area (`ZoneFOV`).
5. It finds the fragments with a low quality of view (`ZoneQOV`). A fragment is low quality
   when it is dark, behind a sign or scaffolding, or behind foliage. The step writes the
   zone's degraded count, degraded area, the percentage of views not working (`NoIRpct`)
   and the percentage of area actually covered (`actlFOV`).

Each step is modelled in the form the source gives it, and the properties the code
promises are proved:

- **Loops become methods proved against a specification function.** This covers the
  block-reading `while` loop of `Buffer`, the in-place `ffill`/`bfill` passes and the
  sums behind `.sum()` and `.unique().sum()`.
- **Pandas expressions become functions with lemmas.** This covers the selections, the
  join, the column pruning, the de-duplication and the update.

Modules, one per file:

| file | module | models |
|---|---|---|
| `wrappers.dfy` | `Wrappers` | `Option`, `Result` |
| `positions.dfy` | `Positions` | increasing lists of row positions, shared by the joins and selections |
| `text.dfy` | `PyText` | `str.strip`, `str.split(':')[1]`, `str(n)` on naturals |
| `buffer.dfy` | `CameraPoints` | `Buffer`'s record loop and key/coordinate dictionary |
| `attributes.dfy` | `AttributeKeys` | `Attributes`' index re-keying |
| `merge.dfy` | `Merge` | `MergeSHP`'s index inner join |
| `prune.dfy` | `Prune` | `InputData`'s all-null column pruning |
| `sums.dfy` | `Sums` | `Series.sum()`, `Series.unique()` |
| `zones.dfy` | `Zones` | `ZoneFOV`'s three stamped columns |
| `fill.dfy` | `Fill` | `fillna(method='ffill')`, `fillna(method='bfill')`, `fillna(0)` |
| `qov.dfy` | `Qov` | `ZoneQOV` in full |
| `scenarios.dfy` | `QovScenarios` | worked zones for the totals |

## Where the model follows the code rather than the column names

### `totqov_cnt` and `totqov_area` are sums of distinct pre-dedup values

They are not the number and area of the degraded fragments, and `Qov.TotalsAreDistinctSums`
proves what they are. Two consequences:

- A fragment that is both dark and behind scaffolding is counted twice.
  `QovScenarios.OverlapCountsTwice` shows this for three dark and two scaffolded fragments
  that share one: `totqov_cnt` is 5, although only 4 fragments are degraded.
- Two causes with the same count collapse to one value. `QovScenarios.EqualCountsCollapse`
  shows the count dropping to 2 where four fragments are degraded.

### `NoIRpct` is not bounded by 100

`QovScenarios.OverlapPercentAboveHundred` exhibits 125.

### Division by zero

The code divides by `fov_cnt` and `totfov_area` without a guard (lines 119-120).

- `fov_cnt` is the zone's row count (line 91). It is never 0 on a row that exists.
- `totfov_area` is 0 only when every fragment of the zone has zero area. Then `totqov_area`
  is 0 too, and `actlFOV` is 0/0, NaN, on the surviving rows. `update` skips NaN values
  (line 123), so the column stays missing everywhere, and the fill of line 124 puts 0 on
  every row.

The model requires both to be non-zero on degraded fragments (`Qov.DivisionDefined`). So
it leaves zones of zero total area out, rather than model NaN.

## Model

| member | source | states |
|---|---|---|
| PyText.Strip | script_main.py:25-27 | definition of `str.strip(chars)`: every leading and trailing character of the set removed (its properties: the three rows below) |
| PyText.StripSpec | script_main.py:25-27 | `strip` removes only characters of the strip set, from both ends, and leaves a slice that neither starts nor ends with one |
| PyText.StripKeeps | script_main.py:25-27 | stripping never removes a character outside the strip set (a ':' survives `strip('\n')`) |
| PyText.StripIdempotent | script_main.py:25-27 | stripping twice is stripping once |
| PyText.IndexOfSpec | script_main.py:26-27 | the search stops at the first occurrence of the separator, or at the end when there is none |
| PyText.SecondField | script_main.py:26-27 | definition of `split(':')[1]`, None where the split gives one field (IndexError) (its properties: `SecondFieldSpec`) |
| PyText.SecondFieldSpec | script_main.py:26-27 | `split(':')[1]` exists exactly when the line has a ':' and is the text between the first ':' and the next ':' or the end |
| PyText.UnterminatedSecondField | script_main.py:26-27 | the second field of `line.strip('\n')` is the second field of the raw line less the newlines that end it |
| PyText.NatToString | script_main.py:49 | `str(n)`: at least one digit, only digits, no leading zero |
| PyText.ParseNatToString | script_main.py:49 | `str(n)` of a natural reads back as n |
| PyText.NatToStringInjective | script_main.py:49 | different naturals get different decimal texts |
| CameraPoints.Block | script_main.py:23-24 | block i is `data[8i:8i+7]`, cut short at the end of the file, and has 1 to 7 lines |
| CameraPoints.CoordText | script_main.py:26-27 | definition of `line.strip('\n').split(':')[1].strip()`, None where `[1]` raises (its properties: the two rows below) |
| CameraPoints.CoordTextSpec | script_main.py:26-27 | a coordinate line yields text exactly when it holds ':'; the text has no ':' and no surrounding whitespace |
| CameraPoints.CoordTextValue | script_main.py:26-27 | a coordinate is the whitespace-stripped text of the raw line between its first ':' and the next ':' or the end of the line |
| CameraPoints.ParseBlock | script_main.py:24-28 | definition of one iteration's reading: key from line 0, lat from line 3, lon from line 4, each failure as the IndexError it raises (its properties: `ParseBlockOutcome`) |
| CameraPoints.ParseBlockOutcome | script_main.py:24-28 | a block parses iff lines 3 and 4 exist and hold ':'; otherwise the error names the first missing line or the first line without ':'; the key is line 0 stripped of '.' and newline characters; the point is (lon from line 4, lat from line 3) |
| CameraPoints.Insert | script_main.py:22-30 | definition of the dictionary after the first n blocks, or the first failing block's error (its properties: `InsertFailure`, `InsertContents`) |
| CameraPoints.Points | script_main.py:18-30 | definition of the key map of a whole file: `Insert` over all its blocks |
| CameraPoints.ReadRecords | script_main.py:22-30 | the loop over offsets 0, 8, 16, … returns the dictionary fold over the parsed blocks, or the first block's error |
| CameraPoints.Buffer | script_main.py:18-30 | the whole record parse equals the specification `Points(data)` |
| CameraPoints.FailureSticks | script_main.py:22-30 | after a failing block nothing later changes the outcome (the exception ends the loop) |
| CameraPoints.InsertFailure | script_main.py:22-30 | the parse fails iff some block fails, and then with the error of the first failing block |
| CameraPoints.InsertContents | script_main.py:29 | on success the keys are exactly the blocks' keys and each key holds the coordinates of the last block carrying it |
| CameraPoints.ParseBlockReads | script_main.py:24-27 | a block's outcome depends only on its length and lines 0, 3 and 4 |
| CameraPoints.OnlyKeyAndCoordinateLinesRead | script_main.py:22-30 | two files of equal length that agree on lines 0, 3 and 4 of every block give the same result |
| AttributeKeys.Attributes | script_main.py:45-50 | rows keep their order and contents; row i of N is keyed str(N − i) |
| AttributeKeys.AlignedKeysDistinct | script_main.py:47-49 | the keys given to the rows are pairwise distinct |
| AttributeKeys.AlignedKeysCover | script_main.py:47-49 | the keys are exactly "1".."N"; the first row gets "N", the last "1", and each key reads back as its position from the end |
| Merge.Matched | script_main.py:55 | definition of the positions of the attribute rows whose key has a geometry (its properties: `MatchedSpec`) |
| Merge.MatchedSpec | script_main.py:55 | the joined positions increase and are exactly the attribute rows whose key has a geometry |
| Merge.InnerJoin | script_main.py:55 | the join has no more rows than the attribute table |
| Merge.InnerJoinSpec | script_main.py:55 | row k of the join is attribute row m[k] with the geometry under its key, m increasing, and a row is used iff its key has a geometry |
| Merge.InnerJoinKeys | script_main.py:55 | every joined key is in both inputs, and every attribute row whose key has a geometry is joined with it |
| Merge.InnerJoinDistinct | script_main.py:55 | distinct attribute keys give distinct joined keys |
| Merge.MergeAligned | script_main.py:76-78 | with `Attributes`' keys, row i of N is joined exactly when str(N − i) has a point; joined keys lie in "1".."N" and are distinct |
| Prune.KeptColumns | script_main.py:80 | definition of `notna().any()` as the list of columns holding a value (its properties: `KeptColumnsSpec`) |
| Prune.KeptColumnsSpec | script_main.py:80 | the kept columns increase and are exactly those with a non-null value |
| Prune.PruneNullColumns | script_main.py:80-81 | pruning keeps every row and leaves a well-formed table |
| Prune.PruneSpec | script_main.py:80-81 | the pruned table holds exactly the columns with a value, in order, with the same names and cells |
| Prune.PrunedHaveValues | script_main.py:80-81 | every remaining column holds a value |
| Prune.PruneIdempotent | script_main.py:80-81 | pruning twice is pruning once |
| Sums.Sum | script_main.py:92 | definition of `Series.sum()`, added from the first row to the last (its properties: the rows below) |
| Sums.SumBoundsEach | script_main.py:92 | with non-negative areas, the total is non-negative and at least each area |
| Sums.SumConstant | script_main.py:92 | n rows of value c sum to n·c |
| Sums.Unique | script_main.py:117-118 | definition of `Series.unique()`: each value at its first appearance (its properties: `UniqueSpec`) |
| Sums.UniqueSpec | script_main.py:117-118 | `unique()` keeps every value, adds none and repeats none |
| Sums.SetSumRemove | script_main.py:117-118 | the sum of a set of values does not depend on the order of summation |
| Sums.SumUnique | script_main.py:117-118 | `unique().sum()` adds each distinct value exactly once |
| Zones.ZoneFov | script_main.py:90-92 | rows unchanged; `fov_area` is each fragment's area; every row carries the row count and the sum of the areas |
| Zones.TotalCoversEachFragment | script_main.py:90-92 | with non-negative areas, 0 ≤ `fov_area` ≤ `totfov_area` on every row |
| Fill.Filled | script_main.py:124-125 | definition of `ffill`, then `bfill`, then `fillna(0)` on one column (its properties: the rows below) |
| Fill.ForwardFilled | script_main.py:124 | definition of `fillna(method='ffill')` on one column: each missing value takes the nearest value above (its properties: `LastPresentSpec`, `ForwardFill`) |
| Fill.BackFilled | script_main.py:124 | definition of `fillna(method='bfill')` on one column: each missing value takes the nearest value below (its properties: `NextPresentSpec`, `BackFill`) |
| Fill.ZeroFilled | script_main.py:124 | definition of `fillna(0)`: a missing value becomes 0, a present one is kept (its properties: `FilledAllMissing`, `FilledFromColumn`) |
| Fill.LastPresentSpec | script_main.py:124 | ffill keeps present values, is missing only above the first value, and otherwise copies the nearest value above |
| Fill.NextPresentSpec | script_main.py:124 | bfill keeps present values, is missing only below the last value, and otherwise copies the nearest value below |
| Fill.ForwardFill | script_main.py:124 | the in-place pass leaves the array as the ffill specification |
| Fill.BackFill | script_main.py:124 | the in-place pass leaves the array as the bfill specification |
| Fill.FillColumn | script_main.py:124-125 | ffill, bfill, then fillna(0), equal to the specification `Filled` |
| Fill.FilledKeepsPresent | script_main.py:124 | filling never changes a present value |
| Fill.FilledAllMissing | script_main.py:124 | a column without values fills with 0 |
| Fill.FilledFromColumn | script_main.py:124 | each filled value is 0 or a value of the column |
| Fill.FilledConstant | script_main.py:124 | a column whose values all equal v, with at least one present, fills to v everywhere |
| Qov.Label | script_main.py:111-113 | definition of the `lo_qov` notes: 'dark', 'sign/scaffolding', 'foliage' (the note `ZoneTableCauses` puts on a degraded row) |
| Qov.Matches | script_main.py:100-103 | definition of the three filters: `led == 'none'` and `well_lit` 'no' or null; `scaffoldin == 'yes'`; `foliage == 'yes'` |
| Qov.Priority | script_main.py:115-116 | definition of the cause a fragment keeps after dedup: the first of dark, scaffolding, foliage it matches (proved to be so by `QovLookup`) |
| Qov.Select | script_main.py:100-103 | definition of a cause's subset (its properties: `SelectSpec`, `SelectOrder`, `SelectNone`) |
| Qov.SelectSpec | script_main.py:100-103 | a cause's subset is exactly the rows matching its filter |
| Qov.SelectOrder | script_main.py:100-107 | a subset lists each matching row exactly once, in table order, so `loqov_cnt` (its length) is the number of matching rows |
| Qov.SelectNone | script_main.py:100-103 | a cause no row matches selects nothing |
| Qov.LowQov | script_main.py:105-109 | every row of the subset is stamped with the cause, the subset's row count and the sum of its fragments' geometry areas (`low_qov.area`) |
| Qov.FindQov | script_main.py:116 | a found row is in the table and carries the id |
| Qov.FindQovNone | script_main.py:116 | nothing is found iff no row carries the id |
| Qov.FindQovAppend | script_main.py:115-116 | a lookup in a concatenation looks in the first part first |
| Qov.FindQovDistinct | script_main.py:116 | in a de-duplicated table, the lookup of a row's id finds that row |
| Qov.Concatenated | script_main.py:115 | definition of `dark_cvrg.append(scaf_cvrg.append(folg_cvrg))`: the dark, scaffolding and foliage subsets, stamped, in that order (its properties: `FindQovAppend`, `QovLookup`) |
| Qov.KeepFirst | script_main.py:116 | definition of `index.duplicated() == False`: a row is kept when its fragment does not occur higher up (its properties: the rows below) |
| Qov.KeepFirstFind | script_main.py:116 | de-duplication keeps the first row of every fragment |
| Qov.KeepFirstDistinct | script_main.py:116 | after de-duplication no fragment repeats and every row comes from the input |
| Qov.KeepFirstOfDistinct | script_main.py:116 | a table without repeated fragments is unchanged by de-duplication |
| Qov.KeepFirstIdempotent | script_main.py:116 | de-duplicating twice is de-duplicating once |
| Qov.QovRows | script_main.py:115-116 | definition of `qov_cvrg` after the keep-first dedup of the concatenation (its properties: `QovLookup`, `QovRowsFromFull`) |
| Qov.FindStampedSelect | script_main.py:100-109 | a cause's stamped subset holds a fragment iff the fragment matches the cause |
| Qov.SelectedMember | script_main.py:100-109 | a row of a cause's stamped subset is a table row matching the cause, with the subset's count and area |
| Qov.QovLookup | script_main.py:100-116 | a fragment survives iff it is degraded, tagged with its first cause (dark, scaffolding, foliage) and that cause's pre-dedup count and area |
| Qov.QovRowsFromFull | script_main.py:100-116 | survivors are distinct rows of the table that match their cause and carry its pre-dedup count and area |
| Qov.TotQovCnt | script_main.py:117 | definition of `loqov_cnt.unique().sum()` (its properties: `SurvivingCounts`, `TotalsAreDistinctSums`) |
| Qov.TotQovArea | script_main.py:118 | definition of `loqov_area.unique().sum()` (its properties: `SurvivingAreas`, `TotalsAreDistinctSums`) |
| Qov.RowTotals | script_main.py:119-120 | definition of a surviving row's `NoIRpct` and `actlFOV` from its `fov_cnt` and `totfov_area` (its value on a `ZoneFOV` row: `RowTotalsExpected`) |
| Qov.Updates | script_main.py:122-123 | definition of `zn_cvrg.update(qov_cvrg)` on the four zone-wide columns: a surviving fragment's totals, missing elsewhere (its properties: `RawColumn`) |
| Qov.Assemble | script_main.py:122-125 | definition of the returned table: the full table, the per-cause columns of the surviving rows, the four filled columns (its properties: `ZoneTableCauses`, `ZoneTableTotals`, `ZoneTableClean`) |
| Qov.DistinctSum | script_main.py:117-118 | the one-pass loop computes `unique().sum()` |
| Qov.ZoneTable | script_main.py:122-126 | the result has the input's rows, in order |
| Qov.ZoneQov | script_main.py:98-126 | the step-by-step computation equals the specification `ZoneTable` |
| Qov.ZoneTableCauses | script_main.py:122-123 | degraded rows carry the label, count and area of their first cause; other rows leave them missing |
| Qov.RowTotalsExpected | script_main.py:119-120 | on a `ZoneFOV` row, `NoIRpct` and `actlFOV` are the zone-wide percentages |
| Qov.RawColumn | script_main.py:117-123 | before filling, each zone-wide column holds the zone value on degraded rows and is missing elsewhere |
| Qov.ResultColumnIsFilled | script_main.py:124-125 | the result's zone-wide columns are the filled updated columns |
| Qov.ZoneTableTotals | script_main.py:117-125 | with a degraded fragment, every row carries the same `totqov_cnt`, `totqov_area`, `NoIRpct`, `actlFOV` |
| Qov.ZoneTableClean | script_main.py:122-125 | without a degraded fragment, the four columns are 0 on every row |
| Qov.SurvivorCause | script_main.py:116 | each surviving row carries a cause under which some fragment is reported |
| Qov.ReportedSurvives | script_main.py:116 | each reported cause has a surviving row |
| Qov.SurvivingCauses | script_main.py:116 | the surviving rows carry exactly the reported causes |
| Qov.SurvivingCounts | script_main.py:116-117 | the distinct `loqov_cnt` values after dedup are the reported causes' pre-dedup counts |
| Qov.SurvivingAreas | script_main.py:116-118 | the distinct `loqov_area` values after dedup are the reported causes' pre-dedup areas |
| Qov.TotalsAreDistinctSums | script_main.py:117-118 | `totqov_cnt` (`totqov_area`) is the sum of the distinct pre-dedup counts (areas) of the reported causes |
| QovScenarios.OverlapCountsTwice | script_main.py:115-117 | 3 dark and 2 scaffolded fragments sharing one give `totqov_cnt` = 5 |
| QovScenarios.OverlapPercentAboveHundred | script_main.py:119 | on that zone `NoIRpct` = 125 |
| QovScenarios.EqualCountsCollapse | script_main.py:117 | causes with equal counts collapse: `totqov_cnt` = 2 with four degraded fragments |

## Left out

- File I/O is not modelled: `OpenCoords`, `OpenSHP`, `pd.read_csv` and `gpd.read_file`. The
  coordinate file enters as its list of lines, and the attribute table as its list of rows.
- Geometry is not modelled: `Point`, the CRS settings and `to_crs` reprojection,
  `buffer(4)`, and the `FOV` and `ZoneFOV` overlays (`gpd.overlay`). Fragment areas are
  inputs, and the join carries an opaque geometry value.
- `float()` of the coordinate texts is not modelled. Coordinates are kept as the trimmed
  text the source passes to `float()`, so a `ValueError` on non-numeric text is not
  modelled.
- `float64` arithmetic is modelled with exact reals: no rounding, NaN or infinity.
- Qov.ZoneQov: requires non-zero `fov_cnt` and `totfov_area` on degraded rows, so a zone
  whose fragments all have zero area is left out. For such a zone the source computes
  `actlFOV` = 0/0 = NaN on the surviving rows, and `update` skips it; the returned
  `actlFOV` is then 0 on every row, as the fill makes it. `fov_cnt` is never 0 on a
  `ZoneFOV` row.
- Qov.RowTotals: has the same requirement as `Qov.ZoneQov`, for the same reason.
- A condition column (`led`, `well_lit`, `scaffoldin`, `foliage`) that is absent from the
  table is not modelled. The source raises `AttributeError` when pruning has dropped such a
  column; here every fragment has all four fields, each possibly missing.
- Pandas index alignment is not modelled in general.
  - `update` and the `actlFOV` subtraction match rows by label; the model matches by
    fragment id.
  - The overlay's index is assumed to be unique (`Qov.DistinctIds`).
- `CameraPoints.Buffer` models only the key/coordinate dictionary. It does not model the
  GeoDataFrame built from it.
- `ZoneQOV`'s `pd.DataFrame(columns=…)` placeholder columns are not modelled. Result rows
  carry the seven added columns as fields.
- The orchestration script after line 129 is not modelled: the per-neighbourhood calls and
  the concatenations.
- The matplotlib import on line 6 is not modelled. It is never used.
