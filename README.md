# etdmap core, modelled in Dafny

etdmap turns the raw meter readings of households in an energy-transition
dataset into one validated table per household, plus an index of
households. This project models its core and proves properties of it:

- **Cumulative meter counters** (`mapping_helpers.py`). This covers the
  plausibility checks on cumulative columns, the derivation of per-interval
  `Diff` columns, and the repair that blanks readings around a decreasing
  counter. It also covers completing the 5-minute grid, filling rarely
  reporting devices, and the column order of the data model.
- **Clock estimation and alignment** (`mapping_clock_helpers.py`). This
  covers the best clock phase of a device, how many readings lie near it,
  snapping readings onto a grid, interpolating cumulative counters, and
  shifting and joining several devices onto one reference clock.
- **Validators** (`dataset_validators.py`, `record_validators.py`). There
  are whole-table and per-row checks in pandas' three-valued logic (true,
  false, NA). The model also builds the dictionaries of checks that the
  index is filled from.
- **Index bookkeeping** (`index_helpers.py`). This covers handing out BSV
  household ids, the upsert of a household, filling its flags from the
  validators' outcomes, the combined cumulative flag, and the strict dtype
  check before saving.
- **The options registry** (`_config.py`).

Conventions:

- Timestamps are whole seconds (`int`). Measured values are `real`.
- A missing value (`pd.NA`) is `None`, and a nullable boolean is
  `Option<bool>` (`Tri`).
- An operation that can raise returns `Result`, whose `Failure` names the
  Python exception class.
- Code that changes state step by step is a `method` with loops. Each such
  method is proved equal to a specification function, and the
  specification functions carry the properties. Examples are the in-place
  repair of a column (over an `array`), the validation loop with its shared
  flag dictionary, and the option registry (a `class`).

Each module is one file: `basics.dfy`, `tables.dfy`, `counter_checks.dfy`,
`counter_repair.dfy`, `intervals.dfy`, `column_layout.dfy`,
`clock_estimation.dfy`, `timestamp_alignment.dfy`, `series_merge.dfy`,
`dataset_validators.dfy`, `record_validators.dfy`, `index_helpers.dfy` and
`config.dfy`.

## Model

| member | source | states |
|---|---|---|
| Basics.And3 | etdmap/dataset_validators.py:333-337 | Kleene `&`: true iff both are true, false iff either is false, NA otherwise |
| Basics.AtLeast | etdmap/record_validators.py:39-41 | `x >= bound` on a nullable bound: NA iff the bound is missing, true iff the bound is present and at most `x` |
| Basics.AtMost | etdmap/record_validators.py:42-44 | `x <= bound` on a nullable bound: NA iff the bound is missing, true iff present and at least `x` |
| CounterChecks.PrevPresent | etdmap/mapping_helpers.py:67-69 | the previous present row after `dropna()`: present, strictly earlier, with only missing rows between; none iff no earlier row is present |
| CounterChecks.GapFreeDiff | etdmap/mapping_helpers.py:85-87 | the difference to the previous present value exists iff the row is present and some earlier row is, and equals `v[i] - v[j]` for such a row |
| CounterChecks.GapBefore | etdmap/mapping_helpers.py:69-70 | the time since the previous present reading exists exactly where the gap-free difference does |
| CounterChecks.FirstPresent | etdmap/mapping_helpers.py:115 | the first present row, with nothing present before it; none iff the column is all missing |
| CounterChecks.Covered | etdmap/mapping_helpers.py:115 | the rows that `ffill().notna()` counts: at most the row count, zero iff the column is all missing |
| CounterChecks.ReportMeaning | etdmap/mapping_helpers.py:57-124 | every flag of the report starts true and is false iff some listed column fails that flag's check; a listed absent column clears only `column_found` |
| CounterChecks.ValidateCumulativeVariables | etdmap/mapping_helpers.py:48-126 | the loop over the cumulative columns that clears flags in a shared dictionary computes exactly `ReportOf` |
| CounterChecks.ZeroWithoutDecreaseIsAccepted | etdmap/mapping_helpers.py:98-113 | a zero reading in a column that never decreases does not clear `no_unexpected_zero` |
| CounterRepair.AdjacentDiff | etdmap/mapping_helpers.py:163-164 | one entry per row; 0 in the first row; later entries are present iff the row and the row above are, and then the row above plus the entry is the row's value |
| CounterRepair.NextChangeFrom | etdmap/mapping_helpers.py:182-185 | the first later present row whose gap-free difference is non-zero, with no such row before it; none iff there is no such row |
| CounterRepair.BlankEnd | etdmap/mapping_helpers.py:187-247 | for unique increasing dates: with no later change the blanking runs to the end of the column; when the next change makes up for the drop or is itself a drop it stops at that change; otherwise it covers row `t` alone iff its original `Diff` is negative, and nothing else |
| CounterRepair.Repaired | etdmap/mapping_helpers.py:178-247 | for unique increasing dates: the repaired column has the same length, every row is kept or blanked, and rows before the first decrease are untouched |
| CounterRepair.FirstPresentOn | etdmap/mapping_helpers.py:179-181 | the first row from `j` on that is present and dated `d`, with no such row before it; none iff there is none |
| CounterRepair.FirstOn | etdmap/mapping_helpers.py:216-222 | the first row from `j` on dated `d`, with no such row before it; none iff there is none |
| CounterRepair.NextChangeAfter | etdmap/mapping_helpers.py:182-185 | the first row dated after `d` that is present with a non-zero gap-free difference, with no such row before it; none iff there is none |
| CounterRepair.Decision | etdmap/mapping_helpers.py:187-247 | the blanking for the decrease at row `t` starts at its date; it covers every later date iff no later-dated row changes, and otherwise stops at the date of the first such change |
| CounterRepair.RepairedOn | etdmap/mapping_helpers.py:178-247 | the repair keyed on reading dates keeps the length, keeps or blanks each row, and changes only rows dated at or after some decrease |
| CounterRepair.DecreaseRows | etdmap/mapping_helpers.py:172-174 | exactly the rows where a present value is below the previous present value |
| CounterRepair.RepairColumn | etdmap/mapping_helpers.py:178-247 | the in-place loop over the dates of the decreases leaves the array equal to `RepairedOn` of its old contents |
| CounterRepair.NextChangeAfterIsNextChange | etdmap/mapping_helpers.py:182-185 | with unique increasing dates, the first later-dated change is the first change in a later row |
| CounterRepair.CoversOnUniqueDates | etdmap/mapping_helpers.py:178-247 | with unique increasing dates, the rows a decrease's date-keyed decision blanks are exactly the index range `[t, BlankEnd(v, t))` |
| CounterRepair.RepairedOnUniqueDates | etdmap/mapping_helpers.py:178-247 | with unique increasing dates, the date-keyed repair equals the index-keyed `Repaired` |
| CounterRepair.WholeDateDecision | etdmap/mapping_helpers.py:178-231 | in `[100,200,150,250]` dated `[0,300,300,600]` the only decrease is at row 2, and its decision blanks the dates from 300 up to 600 |
| CounterRepair.RepairBlanksWholeDate | etdmap/mapping_helpers.py:196-200 | with dates `[0,300,300,600]`, `[100,200,150,250]` repairs to `[100,NA,NA,250]`: both rows dated 300 go |
| CounterRepair.RepeatedDateLeavesDrop | etdmap/mapping_helpers.py:178-256 | with dates `[0,100,200,200,300]`, `[100,NA,90,80,85]` is left as it is by the repair, yet its `Diff` is `-10` in row 3, so the error at :256 can fire when dates repeat |
| CounterRepair.BlankEndCoversDrop | etdmap/mapping_helpers.py:215-231 | when the row above a decrease is present, every branch of the repair blanks the decreasing row itself |
| CounterRepair.RepairLeavesNoNegativeDiff | etdmap/mapping_helpers.py:253-261 | after the repair no entry of the recomputed `Diff` is negative, so the error at :256 never fires |
| CounterRepair.NoDecreaseNoNegativeDiff | etdmap/mapping_helpers.py:160-166 | a column that never decreases has no negative `Diff` without any repair |
| CounterRepair.RepairKeepsCleanColumn | etdmap/mapping_helpers.py:166-178 | the repair leaves a column without decreases unchanged |
| CounterRepair.CalculateDiff | etdmap/mapping_helpers.py:143-269 | a household that failed validation is dropped when asked to; otherwise each listed column gets its `Diff`, after the date-keyed repair (`RepairedOn`) iff some column decreases; an empty household raises |
| CounterRepair.WithDiffsKeepsKeys | etdmap/mapping_helpers.py:160-267 | the loop over the cumulative columns never removes a column |
| CounterRepair.WithDiffsWithoutRepair | etdmap/mapping_helpers.py:160-166 | without repair the listed columns keep their values |
| CounterRepair.WithDiffsOutside | etdmap/mapping_helpers.py:160-267 | a column that is neither listed nor the `Diff` of a listed column is untouched |
| CounterRepair.WithDiffsNoNegative | etdmap/mapping_helpers.py:160-261 | every listed column present gets a `Diff` column without negative entries, when the repair runs on unique increasing dates or no column decreases |
| CounterRepair.ProcessedDiffsNeverNegative | etdmap/mapping_helpers.py:143-269 | with unique increasing reading dates, `calculate_diff` never leaves a negative `Diff` in a cumulative column it processed |
| CounterRepair.RepairOfMadeUpDrop | etdmap/mapping_helpers.py:178-254 | `[0,100,200,50,250,300]` repairs to `[0,100,200,NA,250,300]` with `Diff` `[0,100,100,NA,NA,50]` |
| CounterRepair.DropAfterReadingBlanked | etdmap/mapping_helpers.py:187-231 | a decrease right after a present reading is always blanked by the repair |
| CounterRepair.RepairOnceKeepsLaterReading | etdmap/mapping_helpers.py:215-231 | `[100,200,150,160]` repairs to `[100,200,NA,160]`: only the drop goes |
| CounterRepair.RepairOfBrokenTail | etdmap/mapping_helpers.py:239-241 | `[100,200,NA,160]` repairs to `[100,200,NA,NA]`: with no later change the tail goes |
| CounterRepair.RepairNotIdempotent | etdmap/mapping_helpers.py:178-247 | `[100,200,150,160]` loses one reading on the first repair and another on a second, so the repair is not idempotent |
| Intervals.MinDate | etdmap/mapping_helpers.py:314 | the earliest date: at most every date and one of them |
| Intervals.MaxDate | etdmap/mapping_helpers.py:315 | the latest date: at least every date and one of them |
| Intervals.Grid | etdmap/mapping_helpers.py:331-333 | `date_range(earliest, latest, freq)` has `(latest-earliest)/freq + 1` slots, slot `k` at `earliest + k*freq` |
| Intervals.GridSlots | etdmap/mapping_helpers.py:331-333 | the grid holds exactly the dates from earliest to latest that are a whole number of periods after the earliest |
| Intervals.Insert | etdmap/mapping_helpers.py:349 | inserting a key into increasing distinct keys keeps them increasing and distinct and adds exactly that key |
| Intervals.SortedDistinct | etdmap/mapping_helpers.py:349 | the keys of an outer merge: increasing, distinct, and exactly the given keys |
| Intervals.EnsureIntervals | etdmap/mapping_helpers.py:307-364 | an empty table raises; a table with as many rows as 5-minute slots comes back unchanged |
| Intervals.JoinCoversKeys | etdmap/mapping_helpers.py:335-336 | a merge on keys gives every key a record, and every record's date is a key |
| Intervals.JoinKeepsKeyedRecords | etdmap/mapping_helpers.py:335-336 | every record whose date is a key survives the merge |
| Intervals.EnsureIntervalsCoversGrid | etdmap/mapping_helpers.py:338-364 | whenever the grid is merged in, every slot is present and every original record on a slot is kept |
| Intervals.MergeCovers | etdmap/mapping_helpers.py:349 | a merge on keys that include every slot covers the grid and keeps the records on it |
| Intervals.LeftMergeOnePerSlot | etdmap/mapping_helpers.py:335-336 | with unique dates a left merge gives exactly one record per slot, in slot order |
| Intervals.NoMatch | etdmap/mapping_helpers.py:336 | no record matches a date that no record has |
| Intervals.AtMostOneMatch | etdmap/mapping_helpers.py:336 | with unique dates at most one record matches a slot |
| ColumnLayout.ForwardFill | etdmap/mapping_helpers.py:302 | `ffill()` keeps present values; a row stays missing iff it and every row above are missing; otherwise it holds the nearest present value at or above it |
| ColumnLayout.BackwardFill | etdmap/mapping_helpers.py:302 | `bfill()` keeps present values; a row stays missing iff it and every row below are missing; otherwise it holds the nearest present value at or below it |
| ColumnLayout.ZeroFill | etdmap/mapping_helpers.py:302 | `fillna(0.0)` leaves nothing missing and replaces only missing values, with 0 |
| ColumnLayout.FillDown | etdmap/mapping_helpers.py:302 | after `ffill().bfill().fillna(0.0)` nothing is missing and every present value stays |
| ColumnLayout.FillDownTakesColumnValues | etdmap/mapping_helpers.py:302 | in a column with some value, every filled value is one of the column's values |
| ColumnLayout.FillDownOfEmptyColumn | etdmap/mapping_helpers.py:302 | a column without values becomes all zeros |
| ColumnLayout.FillDownKeepsFullColumn | etdmap/mapping_helpers.py:302 | a column with nothing missing is unchanged |
| ColumnLayout.FillDownIdempotent | etdmap/mapping_helpers.py:302 | filling twice is filling once |
| ColumnLayout.FillDownInfrequentDevices | etdmap/mapping_helpers.py:289-304 | each listed column the table has is filled down, and every other column is unchanged |
| ColumnLayout.Select | etdmap/mapping_helpers.py:40-43 | exactly the names of the table that the model lists (or does not list), each pair in the order they have in the table, without repeats when the table has none |
| ColumnLayout.RearrangeModelColumns | etdmap/mapping_helpers.py:8-44 | no column is lost and none changes value; with `add_columns` the names are the model's, then the table's other names in table order, and missing model columns are all NA; without it the names are the table's model columns in model order, then the others in table order |
| ClockEstimation.Deviation | etdmap/mapping_clock_helpers.py:70 | the circular distance to the clock lies in `[0, freq/2]` and is 0 iff the second is a tick |
| ClockEstimation.TotalDeviation | etdmap/mapping_clock_helpers.py:70 | the summed deviation is never negative |
| ClockEstimation.BestOffset | etdmap/mapping_clock_helpers.py:69-71 | `argmin` over the offsets: a least total deviation, and the first of several that tie |
| ClockEstimation.Min | etdmap/mapping_clock_helpers.py:72 | the earliest second: one of them and at most each |
| ClockEstimation.OptimalStart | etdmap/mapping_clock_helpers.py:67-73 | a start exists iff there are timestamps |
| ClockEstimation.OptimalStartIsTick | etdmap/mapping_clock_helpers.py:72 | the start is a tick of the best clock, at most the earliest second and less than one period before it |
| ClockEstimation.ClockDeviation | etdmap/mapping_clock_helpers.py:122-123 | the deviation from a clock given by its start lies in `[0, freq/2]` |
| ClockEstimation.TotalClockDeviation | etdmap/mapping_clock_helpers.py:122-123 | the summed deviation from a start is never negative |
| ClockEstimation.ClockAndOffsetAgree | etdmap/mapping_clock_helpers.py:70-72 | measuring against a start equals measuring against the offset that puts a tick there |
| ClockEstimation.OptimalStartIsBest | etdmap/mapping_clock_helpers.py:67-73 | no clock phase lies closer to the timestamps in total than the estimated start |
| ClockEstimation.DetermineDynamicClocks | etdmap/mapping_clock_helpers.py:46-82 | keys `device_0 .. device_{n-1}` and `overall`, each device's optimal start, and the overall start over all timestamps together |
| ClockEstimation.CountWithin | etdmap/mapping_clock_helpers.py:122-126 | the count of timestamps within tolerance is at most their number, and zero without a clock |
| ClockEstimation.CountWithinMonotone | etdmap/mapping_clock_helpers.py:124-125 | a wider tolerance never counts fewer timestamps |
| ClockEstimation.CountWithinHalfPeriod | etdmap/mapping_clock_helpers.py:122-125 | a tolerance of half a period counts every timestamp |
| ClockEstimation.KeysFor | etdmap/mapping_clock_helpers.py:119-131 | the report of a column has a device key and an `_overall` key for each tolerance and nothing else |
| ClockEstimation.ToleranceCounts | etdmap/mapping_clock_helpers.py:119-131 | one count per tolerance and clock (own and overall), each the number of readings within that tolerance of that clock |
| ClockEstimation.CountTolerances | etdmap/mapping_clock_helpers.py:119-131 | the loop over the tolerances fills exactly `ToleranceCounts` |
| ClockEstimation.ReportToleranceImpact | etdmap/mapping_clock_helpers.py:84-133 | a `KeyError` iff a needed clock is missing; otherwise one entry per device, one per non-timestamp column, with the counts against its own and the overall clock |
| TimestampAlignment.CountBelow | etdmap/mapping_clock_helpers.py:243 | on sorted times, the leading times below a bound are exactly those below it |
| TimestampAlignment.Window | etdmap/mapping_clock_helpers.py:243-244 | the rows within tolerance of `t`, bounds included, form one range of rows |
| TimestampAlignment.Nearby | etdmap/mapping_clock_helpers.py:243-244 | the nearby readings keep their order |
| TimestampAlignment.Share | etdmap/mapping_clock_helpers.py:248-252 | the position strictly between two readings is a share strictly between 0 and 1 |
| TimestampAlignment.InterpBetween | etdmap/mapping_clock_helpers.py:248-252 | interpolating non-decreasing readings stays between the first and the last |
| TimestampAlignment.InterpAtReading | etdmap/mapping_clock_helpers.py:248-252 | interpolating at a reading's time gives that reading |
| TimestampAlignment.InterpolateAt | etdmap/mapping_clock_helpers.py:243-261 | fails, always with `ValueError`, iff two or more readings are nearby and they are not all present and non-decreasing; no nearby reading gives NA |
| TimestampAlignment.InterpolateAtCases | etdmap/mapping_clock_helpers.py:243-261 | no reading is nearby iff none lies within tolerance, and then the value is NA; one nearby reading gives that reading; more give their linear interpolation at `t` |
| TimestampAlignment.InterpolatedBetweenReadings | etdmap/mapping_clock_helpers.py:246-252 | an interpolated value lies between the least and the greatest nearby reading |
| TimestampAlignment.InterpolatedAtReading | etdmap/mapping_clock_helpers.py:246-261 | a target time at which a reading was taken gets that reading whenever interpolation succeeds |
| TimestampAlignment.InterpolateCumulative | etdmap/mapping_clock_helpers.py:217-263 | succeeds iff every target time does, with a `ValueError` otherwise; one value per target time, each `InterpolateAt` |
| TimestampAlignment.InterpolateCumulativeIsColumn | etdmap/mapping_clock_helpers.py:217-263 | the column the loop builds agrees entry by entry with the specification |
| TimestampAlignment.NearestIndex | etdmap/mapping_clock_helpers.py:367-369 | the nearest reading, the later of two equally near ones |
| TimestampAlignment.NearestWithin | etdmap/mapping_clock_helpers.py:367-369 | a value only from a reading within tolerance, and NA when none is within tolerance |
| TimestampAlignment.NearestWithinPicksNearest | etdmap/mapping_clock_helpers.py:367-369 | the strictly nearest reading is the one taken |
| TimestampAlignment.Snap | etdmap/mapping_clock_helpers.py:340-356 | the snapped time is a tick, at most half a period from the original, and a tick stays where it is |
| TimestampAlignment.AlignmentGrid | etdmap/mapping_clock_helpers.py:342-345 | the grid starts at `start`, steps by `freq`, and ends at the last tick up to `start + duration + freq` |
| TimestampAlignment.AlignedTimes | etdmap/mapping_clock_helpers.py:347-356 | `interpolation` keeps the times; `nearest` moves each to a tick at most half a period away, leaves ticks in place, and keeps times in order when no two collide |
| TimestampAlignment.Max | etdmap/mapping_clock_helpers.py:342 | the latest time: one of them and at least each |
| TimestampAlignment.KeptRows | etdmap/mapping_clock_helpers.py:387 | the rows holding some value, increasing |
| TimestampAlignment.DropEmptyRows | etdmap/mapping_clock_helpers.py:387 | `dropna(how='all')` keeps exactly the rows with some value, in order, with all their values |
| TimestampAlignment.DroppedRowsAreEmpty | etdmap/mapping_clock_helpers.py:387 | every row left holds a value and the times stay in grid order |
| TimestampAlignment.RowWithValueKept | etdmap/mapping_clock_helpers.py:387 | a grid row holding some value is kept with its values |
| TimestampAlignment.AlignedColumn | etdmap/mapping_clock_helpers.py:363-385 | one entry per grid time; an interpolated column fails (`ValueError`) iff some grid time fails and otherwise holds `InterpolateAt` there; a nearest column holds `NearestWithin` at each grid time |
| TimestampAlignment.AlignedColumns | etdmap/mapping_clock_helpers.py:363-385 | fails (`ValueError`) iff interpolating some cumulative column fails; otherwise exactly one column per value column, each its `AlignedColumn` |
| TimestampAlignment.AlignedFrame | etdmap/mapping_clock_helpers.py:265-391 | succeeds iff there is a start and a reading, the method is known, no two aligned times collide, and interpolation of the value columns succeeds; the result is then the aligned columns on the grid with the empty rows dropped; every failure is `ValueError` |
| TimestampAlignment.AlignedFrameOnGrid | etdmap/mapping_clock_helpers.py:342-387 | the rows of an aligned frame are grid ticks from `start` on, increasing, each holding some value |
| TimestampAlignment.AlignedFrameCells | etdmap/mapping_clock_helpers.py:363-387 | an aligned frame has exactly the value columns, and each cell is the interpolated value (cumulative column, `interpolation`) or the nearest reading within tolerance at its row's time |
| TimestampAlignment.GridRowsOnGrid | etdmap/mapping_clock_helpers.py:345-387 | the rows kept from the grid are ticks from `start` on, increasing |
| TimestampAlignment.AlignColumns | etdmap/mapping_clock_helpers.py:363-385 | the loop adding the value columns computes `AlignedColumns` |
| TimestampAlignment.AlignTimestamps | etdmap/mapping_clock_helpers.py:265-391 | the method computes `AlignedFrame` |
| TimestampAlignment.SnapKeepsOrder | etdmap/mapping_clock_helpers.py:354-361 | readings in order whose aligned times do not repeat give increasing aligned times |
| TimestampAlignment.SnapMonotone | etdmap/mapping_clock_helpers.py:347-356 | snapping never reverses two times |
| SeriesMerge.Steps | etdmap/mapping_clock_helpers.py:174 | `diff()` without its NA: one step fewer than rows, each the difference of neighbours |
| SeriesMerge.Count | etdmap/mapping_clock_helpers.py:174 | an occurrence count is at most the length |
| SeriesMerge.ModeAmong | etdmap/mapping_clock_helpers.py:174 | the position of the mode lies among the entries considered |
| SeriesMerge.ModeAmongIsMode | etdmap/mapping_clock_helpers.py:174 | no entry is more frequent than the mode, nor as frequent and smaller |
| SeriesMerge.ModalStepIsMode | etdmap/mapping_clock_helpers.py:174 | `mode().iloc[0]` is a step, no step is more frequent, and it is the least of the most frequent |
| SeriesMerge.StepError | etdmap/mapping_clock_helpers.py:174-176 | fewer than two rows is an `IndexError`; otherwise a `ValueError` iff the modal step is more than 1 s from `freq` |
| SeriesMerge.FirstStepError | etdmap/mapping_clock_helpers.py:173-176 | no error iff every frame passes the frequency check |
| SeriesMerge.FirstStepErrorAt | etdmap/mapping_clock_helpers.py:173-176 | the error reported is that of the first frame that fails |
| SeriesMerge.Shift | etdmap/mapping_clock_helpers.py:200-202 | the shift lies in `(-freq/2, freq/2]` and moves the frame's start onto the reference clock |
| SeriesMerge.Firsts | etdmap/mapping_clock_helpers.py:179 | the earliest timestamp of every frame |
| SeriesMerge.Reference | etdmap/mapping_clock_helpers.py:181-194 | without frames an `IndexError` (first as main) or `ValueError`; with `use_first_as_main` the first frame's start |
| SeriesMerge.ReferenceFitsStarts | etdmap/mapping_clock_helpers.py:186-194 | otherwise the reference fits the starts at least as well as any other clock |
| SeriesMerge.Moved | etdmap/mapping_clock_helpers.py:204 | every timestamp moves by the same shift |
| SeriesMerge.CheckFrequencies | etdmap/mapping_clock_helpers.py:173-176 | the loop over the frames reports `FirstStepError` |
| SeriesMerge.ShiftAndJoin | etdmap/mapping_clock_helpers.py:197-212 | each frame moves by its shift, and the joined timestamps are exactly those of the moved frames |
| SeriesMerge.AlignAndMergeDataframes | etdmap/mapping_clock_helpers.py:135-214 | one frame comes back unchanged; otherwise it fails iff some frame fails the check (or there are none), and on success every frame is shifted onto the reference and joined |
| SeriesMerge.MergedStartsOnReference | etdmap/mapping_clock_helpers.py:200-204 | every frame's start lands on the reference clock and moves by at most half a period |
| Tables.FlagName | etdmap/dataset_validators.py:399-419 | a flag name is prefix, variable name and suffix |
| Tables.FlagNameInjective | etdmap/dataset_validators.py:399-419 | two variables never share a flag name |
| DatasetValidators.Days | etdmap/dataset_validators.py:172-176 | `Timedelta.days`: the whole days in a span, `d*86400 <= span < (d+1)*86400` |
| DatasetValidators.Test | etdmap/dataset_validators.py:79-85 | a step test in three-valued logic: non-negative, or within bounds that may be missing |
| DatasetValidators.StepCondition | etdmap/dataset_validators.py:46-56 | a row's condition is NA iff its gap-free difference is missing, and otherwise the test of that difference; the non-negative test is false exactly at a decrease |
| DatasetValidators.ValidateColumns | etdmap/dataset_validators.py:24-56 | NA iff the column is absent or has no value; false iff some step fails its test; true otherwise |
| DatasetValidators.ValidateCumulativeVariable | etdmap/dataset_validators.py:110-135 | true iff the column is present, has a value, and its present values never decrease |
| DatasetValidators.SortedUpTo | etdmap/dataset_validators.py:130-135 | with no decrease, each present value is at least every earlier present value |
| DatasetValidators.NoDecreaseMeansSorted | etdmap/dataset_validators.py:130-135 | no consecutive decrease iff the present values are sorted |
| DatasetValidators.ValidateCummThresholds | etdmap/dataset_validators.py:58-85 | `KeyError` iff the column has no thresholds; with both bounds, true iff every gap-free difference lies in `[Min, Max]` |
| DatasetValidators.MissingBoundsNeverFail | etdmap/dataset_validators.py:79-85 | with both bounds missing the check is never false |
| DatasetValidators.ValidateMonitoringDataCounts | etdmap/dataset_validators.py:88-107 | NA on an empty table, else true iff `100000 <= rows <= 110000` |
| DatasetValidators.EarliestPresent | etdmap/dataset_validators.py:168-177 | after a stable sort on date, the first row with a value: none earlier in date order |
| DatasetValidators.LatestPresent | etdmap/dataset_validators.py:168-177 | after a stable sort on date, the last row with a value: none later in date order |
| DatasetValidators.Extent | etdmap/dataset_validators.py:168-177 | the span in seconds and the rise between those rows, none without a value |
| DatasetValidators.ValidateRange | etdmap/dataset_validators.py:138-184 | `KeyError` without dates; `TypeError` when the year test passes and `Min` is missing; true iff a year is covered and `Min <= rise <= Max` |
| DatasetValidators.DateSpan | etdmap/dataset_validators.py:206-209 | the latest date minus the earliest, never negative |
| DatasetValidators.ValidateApproximatelyOneYearOfRecords | etdmap/dataset_validators.py:187-210 | NA without dates; true iff there are rows and `347 <= days(span) <= 383` |
| DatasetValidators.ValidateNoReadingDateGap | etdmap/dataset_validators.py:286-306 | `KeyError` without dates; true iff row `i` is dated `300*i` seconds after the first |
| DatasetValidators.EvenlySpaced | etdmap/dataset_validators.py:304-306 | every step is 300 s iff row `i` lies `300*i` after the first |
| DatasetValidators.ValidateColumnsExist | etdmap/dataset_validators.py:236-256 | true iff every analysis column is in the table |
| DatasetValidators.Sum3 | etdmap/dataset_validators.py:278-281 | the row sum is present iff all three values are |
| DatasetValidators.WithWarmteopwekker | etdmap/dataset_validators.py:278-282 | the table gains the summed column and nothing else changes |
| DatasetValidators.ValidateEnergiegebruikWarmteopwekker | etdmap/dataset_validators.py:259-283 | `KeyError` when a source column or the dates are missing; true iff a year is covered and the rise lies in `[100, 20000]` |
| DatasetValidators.ValidateFuncCol | etdmap/dataset_validators.py:333-337 | the Kleene `&` of the cumulative check and the range check, and a range failure propagates |
| DatasetValidators.ValidateFuncColPasses | etdmap/dataset_validators.py:333-337 | the column check passes iff the column never decreases, covers a year, and rises within its bounds |
| DatasetValidators.CreateValidateFuncCol | etdmap/dataset_validators.py:309-339 | a `KeyError` iff the column has no thresholds, otherwise the check with its bounds |
| DatasetValidators.ValidateNoOutliersNegativeCumulativeDiff | etdmap/dataset_validators.py:342-370 | `KeyError` without the row flag; true iff every row's flag is NA or true |
| DatasetValidators.Evaluate | etdmap/dataset_validators.py:385-422 | running a check only fails with `KeyError` or `TypeError` |
| DatasetValidators.SpecialChecks | etdmap/dataset_validators.py:385-396 | five keys, each naming its own check |
| DatasetValidators.ColumnKeysMeaning | etdmap/dataset_validators.py:399-419 | the keys added for the cumulative columns are exactly `validate_<col>` and `validate_<col>Diff` |
| DatasetValidators.AddColumnChecksFails | etdmap/dataset_validators.py:399-419 | building the column checks raises `KeyError` iff some cumulative column has no thresholds |
| DatasetValidators.AddColumnChecksKeys | etdmap/dataset_validators.py:399-419 | on success the keys are the starting keys plus `validate_<col>` and `validate_<col>Diff` per column |
| DatasetValidators.AddColumnChecksFiled | etdmap/dataset_validators.py:399-419 | every entry is filed under the flag it fills, and each column check carries that column's thresholds |
| DatasetValidators.BuildDatasetFlagConditions | etdmap/dataset_validators.py:385-422 | the loop building the dictionary computes `AddColumnChecks` on the special checks |
| DatasetValidators.DatasetFlagConditionsMeaning | etdmap/dataset_validators.py:385-422 | the dictionary holds the five special keys plus `validate_<col>` and `validate_<col>Diff` for every cumulative column |
| RecordValidators.ValidateColumn | etdmap/record_validators.py:89-102 | one entry per row; NA iff a listed column is absent or the row lacks a value; otherwise the condition on the row |
| RecordValidators.ValidateElektriciteitgebruik | etdmap/record_validators.py:123-139 | per row: a value iff all four columns have one, true iff `Huishoudelijk <= Zon + Hoog + Laag` |
| RecordValidators.ValidateWarmteproductie | etdmap/record_validators.py:142-148 | per row: a value iff both columns have one, true iff `Warmtepomp >= WarmTapwater` |
| RecordValidators.ValidateReadingDateUniek | etdmap/record_validators.py:105-107 | `KeyError` without dates; true exactly at the first occurrence of each date |
| RecordValidators.UniekMarksOneRowPerDate | etdmap/record_validators.py:105-107 | every date of the table has a row marked true, and no two marked rows share a date |
| RecordValidators.FirstWith | etdmap/record_validators.py:105-107 | the first row with a given date is found |
| RecordValidators.PreviousDate | etdmap/record_validators.py:110-120 | the date of the row just before in a stable date sort: NA iff no row sorts before, otherwise the latest date among the rows that do |
| RecordValidators.Validate300Sec | etdmap/record_validators.py:110-120 | `KeyError` without dates; NA iff no row sorts before; true iff the row sorted just before is exactly 300 s earlier (`|step| == 300`, with sorted dates never later) |
| RecordValidators.InBounds | etdmap/record_validators.py:39-46 | a value's bound test in three-valued logic, true iff both bounds hold |
| RecordValidators.ValidateThresholdsCombined | etdmap/record_validators.py:28-56 | no thresholded column gives an empty result; otherwise one entry per row, NA iff all thresholded columns are missing, true iff some thresholded column is within its bounds |
| RecordValidators.ConditionFuncThreshold | etdmap/record_validators.py:63-86 | a missing bound becomes `-999999` or `999999`; none when the column has no thresholds |
| RecordValidators.ThresholdConditionRespectsGivenBounds | etdmap/record_validators.py:69-80 | with both bounds given, the row test is exactly `Min <= v <= Max` |
| RecordValidators.UnboundedIsFinite | etdmap/record_validators.py:69-80 | a missing `Max` still rejects a value of 1000000 |
| RecordValidators.SpecialChecks | etdmap/record_validators.py:190-196 | five keys, each naming its own check |
| RecordValidators.AddOutlierChecksMeaning | etdmap/record_validators.py:174-185 | adds exactly `validate_<col>Diff_outliers` per cumulative column, each naming its check |
| RecordValidators.BuildRecordFlagConditions | etdmap/record_validators.py:174-202 | the loop building the dictionary computes `AddOutlierChecks` on the special checks |
| IndexHelpers.ExistingId | etdmap/index_helpers.py:162-166 | the id of a supplier's household exists iff a row of that supplier has it, and comes from the last such row |
| IndexHelpers.MaxId | etdmap/index_helpers.py:170 | `max(HuisIdBSV, default=0)`: at least every id, 0 on an empty index, otherwise one of the ids |
| IndexHelpers.NewCount | etdmap/index_helpers.py:172-177 | the number of new households among the first files is at most their number |
| IndexHelpers.NewCountGrows | etdmap/index_helpers.py:172-177 | a new household raises the count for every later file |
| IndexHelpers.GetHouseholdIdPairs | etdmap/index_helpers.py:138-182 | one pair per file in file order; a known household keeps its id; the `n`-th new one gets `max + 1 + n` |
| IndexHelpers.NewIdsAreFresh | etdmap/index_helpers.py:170-177 | new ids are pairwise distinct, increasing, and above every id in the index |
| IndexHelpers.DecimalDigits | etdmap/index_helpers.py:208 | `str` of a number: a non-empty string of digits |
| IndexHelpers.DecimalRoundTrip | etdmap/index_helpers.py:208 | reading the digits back gives the number |
| IndexHelpers.Str | etdmap/index_helpers.py:208 | text stays as it is; a number becomes its digits, with a leading `-` when negative |
| IndexHelpers.Upsert | etdmap/index_helpers.py:213-220 | a listed supplier id updates the matching rows' BSV id and supplier and nothing else; otherwise one row is appended with every flag NA |
| IndexHelpers.UpsertRecordsEntry | etdmap/index_helpers.py:213-220 | afterwards the household is listed, every matching row carries the new ids, and no other row changes |
| IndexHelpers.Outcome | etdmap/index_helpers.py:238-253 | a validator that raised leaves NA, otherwise its result |
| IndexHelpers.SetFlag | etdmap/index_helpers.py:232-244 | a missing flag column is added all NA; only the household's rows get the value; other columns are unchanged |
| IndexHelpers.FillFlags | etdmap/index_helpers.py:230-253 | the flag loop keeps the rows |
| IndexHelpers.FillFlagsColumns | etdmap/index_helpers.py:230-237 | the flag columns afterwards are the old ones plus one per validator |
| IndexHelpers.FillFlagsUntouched | etdmap/index_helpers.py:230-253 | a flag column that no validator writes is unchanged |
| IndexHelpers.FillFlagsWritesOutcome | etdmap/index_helpers.py:230-253 | each validator's column holds its outcome on the household's rows (NA where it raised) and the old value, or NA, elsewhere |
| IndexHelpers.UpdateMetaValidators | etdmap/index_helpers.py:266-298 | adds `validate_cumulative_diff_ok` and changes nothing else; NA on every row if a `Diff` flag column is absent, else true iff no `Diff` flag of the row is false |
| IndexHelpers.DiffOkMeaning | etdmap/index_helpers.py:287-290 | a row passes iff each of its `Diff` flags is NA or true |
| IndexHelpers.UpdateIndex | etdmap/index_helpers.py:185-263 | the upsert, then the flag loop when the household's table exists, then the combined flag |
| IndexHelpers.LastDtype | etdmap/index_helpers.py:483-485 | a column's listed dtype exists iff the column is listed, and it is the dtype of the column's last entry |
| IndexHelpers.SetMetadataDtypes | etdmap/index_helpers.py:466-491 | `ValueError` iff strict and some listed column is absent; otherwise the column dtypes after applying every entry in turn (`Applied`) |
| IndexHelpers.Applied | etdmap/index_helpers.py:483-485 | applying the entries keeps exactly the table's columns |
| IndexHelpers.AppliedLastWins | etdmap/index_helpers.py:483-485 | after applying, a column has the dtype of its last entry, and keeps its own dtype when it has none |
| Config.Defaults | etdmap/_config.py:12-14 | the configuration's keys are exactly the option names |
| Config.DefaultsHoldDefaultValues | etdmap/_config.py:12-14 | each option starts at its own default value |
| Config.Options.constructor | etdmap/_config.py:9-16 | the registry holds exactly the options' names, each at its default value |
| Config.Options.GetAttr | etdmap/_config.py:27-33 | a value exactly for the option names, `AttributeError` otherwise |
| Config.Options.SetAttr | etdmap/_config.py:18-25 | a known key takes the new value and nothing else changes; an unknown key raises `AttributeError` and changes nothing; the keys never change |
| Config.Options.Dir | etdmap/_config.py:35-37 | every option name exactly once, and only those |
| Config.DistinctCard | etdmap/_config.py:35-37 | names without repeats count as many as entries |

## Left out

- File and spreadsheet I/O is not modelled. This covers reading and saving
  parquet and Excel files, listing data files, the metadata readers, and
  `save_index_to_parquet`. The validators' outcomes on a household's table
  are a parameter of `IndexHelpers.UpdateIndex`, in the order of the
  dictionary of checks. The data files of `get_household_id_pairs` are a
  parameter.
- `etdmap/data_model.py` is not part of this model. The cumulative column
  list, the model column order and the threshold table are parameters.
- `.round(10)` is not modelled: values are exact reals. `np.interp` is exact
  linear interpolation.
- `validate_not_outliers` (IQR quantiles on floats) is not modelled. Its
  flags `validate_<col>Diff_outliers` appear only as keys of the record
  checks.
- `create_validate_momentaan` is not modelled. It iterates over a
  DataFrame's column names rather than the momentary columns, so it adds no
  meaningful key.
- `condition_func_threshold` is modelled as evidently intended: `'n.a.'` is
  a missing bound, and a column without thresholds has no condition. As
  written, it tests membership in `pd.DataFrame.columns` (a property of the
  class) and compares the bounds to the string `'n.a.'`.
- `RecordValidators.ValidateThresholdsCombined` follows the code ("some
  column in bounds"), not its docstring, which says the opposite.
- The groupby dispatch of `add_diff_columns` is not modelled: one household
  is one `Group`. `sort_values` is modelled as a stable sort (ties keep
  table order). pandas' default sort is not stable, so the order of rows
  with equal dates is not captured.
- pandas 2 incompatibilities are not modelled: `Series.append` in
  `determine_dynamic_clocks` and `is_monotonic` in `interpolate_cumulative`.
  The model follows the pandas 1 meaning; the `elif` at
  `mapping_clock_helpers.py:256` is unreachable.
- Missing values in the cumulative columns behave as NumPy's NaN in
  `CounterChecks` and `CounterRepair`: every comparison with them is false,
  as for `float64` columns. With pandas' nullable `Float64` dtype such a
  comparison gives NA, and using it as a truth value raises `TypeError` at
  `mapping_helpers.py:88`, `:221` and `:256`. That path is not modelled.
  The validators use the nullable three-valued logic (`Tri`).
- TimestampAlignment.InterpolateAt: requires reading times in strictly
  increasing order. The source takes the nearby readings in table order, so
  unordered times would hand `np.interp` unsorted sample points; that case
  is not modelled.
- TimestampAlignment.AlignedColumn: requires strictly increasing aligned
  times, for the same reason, and because the nearest reindex at
  `mapping_clock_helpers.py:372-374` and `:383-385` raises `ValueError` on
  times that are neither increasing nor decreasing and accepts decreasing
  ones. Neither case is modelled.
- TimestampAlignment.AlignedFrame: requires the frame's reading times in
  strictly increasing order; frames in other orders (accepted or rejected
  by the reindex as above) are not modelled.
- TimestampAlignment.AlignTimestamps: requires the same order as
  `AlignedFrame`.
- CounterRepair.WithDiffsNoNegative: when the repair runs, it is stated for
  unique increasing reading dates only. With repeated dates a negative
  `Diff` can survive the repair (`CounterRepair.RepeatedDateLeavesDrop`).
- CounterRepair.ProcessedDiffsNeverNegative: stated for unique increasing
  reading dates only, for the same reason; the source logs an error at
  `mapping_helpers.py:256` when a negative `Diff` survives.
- Merge column suffixes and the column contents of merged frames are not
  modelled. `SeriesMerge.AlignAndMergeDataframes` models the timestamps of
  the joined frame as a set.
- dtypes, `astype` and dtype warnings are not modelled.
  `IndexHelpers.SetMetadataDtypes` records only the dtype name each column
  gets.
- Logging is not modelled. NaT is modelled as a missing start.
- Clock operations require a positive period, as every caller passes.
- `DatasetValidators.Evaluate` does not write the summed heat column into
  the caller's table, although `validate_energiegebruik_warmteopwekker`
  does. No later check reads that column. `WithWarmteopwekker` models the
  write itself.
- `DatasetValidators.ValidateColumns` is modelled for the single-column step
  conditions its callers pass, not for an arbitrary row predicate.
- `IndexHelpers.SetMetadataDtypes` does not model the columns already cast
  in place before a strict failure raises.
- `IndexHelpers.UpdateIndex` keeps only the index columns the model uses:
  `HuisIdBSV`, `HuisIdLeverancier`, `Dataleverancier` and the flags.
  `ProjectIdLeverancier` and other metadata columns are not modelled.
- `Config.Options.GetAttr` does not model the attributes that Python finds
  before `__getattr__` is reached (`_config`, `_options`, methods).
- `IndexHelpers.FillFlagsWritesOutcome` is stated for distinct flag names
  (the keys of a dictionary), not for repeated ones.
