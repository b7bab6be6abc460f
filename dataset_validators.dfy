/*
 * The whole-table validators of etdmap/dataset_validators.py. Each one
 * looks at one mapped household table and answers true, false or NA
 * (`None`); a few raise instead. `dataset_flag_conditions` names each
 * validator by the index column it fills.
 */
module DatasetValidators {
  import opened Basics
  import opened Tables
  import opened CounterChecks
  import ClockEstimation
  import TimestampAlignment

  const SecondsPerDay: int := 86400
  /** About 5% of a year may be missing. */
  const YearAllowedJitter: int := 18
  const EnoughDays: int := 365 - YearAllowedJitter

  /** `Timedelta.days`: whole days, rounded down. */
  function Days(span: int): (d: int)
    ensures d * SecondsPerDay <= span < (d + 1) * SecondsPerDay
  {
    span / SecondsPerDay
  }

  // ---------------------------------------------------------------------
  // validate_columns and the two step conditions handed to it

  /** The test applied to the step between two consecutive present values. */
  datatype StepTest = NonNegative | WithinBounds(bounds: Bounds)

  /** The test on one step; a missing bound makes the comparison NA. */
  function Test(test: StepTest, d: real): (r: Tri)
    ensures test.NonNegative? ==> r == Some(0.0 <= d)
    ensures test.WithinBounds? ==>
      (r == Some(false) <==> (test.bounds.min.Some? && d < test.bounds.min.value) || (test.bounds.max.Some? && test.bounds.max.value < d))
    ensures test.WithinBounds? ==>
      (r == Some(true) <==> test.bounds.min.Some? && test.bounds.max.Some? && test.bounds.min.value <= d <= test.bounds.max.value)
  {
    match test
    case NonNegative => Some(0.0 <= d)
    case WithinBounds(b) => And3(AtLeast(d, b.min), AtMost(d, b.max))
  }

  /**
   * The condition at row `i` once `condition[valid_mask]` is assigned: NA on
   * a missing row and on the first present row (whose `diff` is dropped),
   * the test of the step from the previous present value elsewhere.
   */
  function StepCondition(v: Column, test: StepTest, i: nat): (r: Tri)
    requires i < |v|
    ensures GapFreeDiff(v, i).None? ==> r.None?
    ensures GapFreeDiff(v, i).Some? ==> r == Test(test, GapFreeDiff(v, i).value)
    ensures test.NonNegative? ==> (r == Some(false) <==> DecreaseAt(v, i))
  {
    match GapFreeDiff(v, i)
    case None => None
    case Some(d) => Test(test, d)
  }

  function Condition(v: Column, test: StepTest): (c: seq<Tri>)
    ensures |c| == |v| && forall i :: 0 <= i < |v| ==> c[i] == StepCondition(v, test, i)
  {
    seq(|v|, i requires 0 <= i < |v| => StepCondition(v, test, i))
  }

  /**
   * `validate_columns` with one column and a step condition: NA when the
   * column is absent or holds no value; otherwise true iff no step fails,
   * NA steps skipped.
   */
  function ValidateColumns(t: Table, column: string, test: StepTest): (r: Tri)
    requires t.Valid()
    ensures r.None? <==> column !in t.cells || FirstPresent(t.cells[column]).None?
    ensures r == Some(false) <==>
      column in t.cells && exists i :: 0 <= i < t.rows && StepCondition(t.cells[column], test, i) == Some(false)
  {
    if column !in t.cells then None
    else
      var v := t.cells[column];
      if FirstPresent(v).None? then None
      else
        var c := Condition(v, test);
        assert NoFalse(c) <==> forall i :: 0 <= i < t.rows ==> StepCondition(v, test, i) != Some(false);
        Some(NoFalse(c))
  }

  /**
   * `validate_cumulative_variable`: NA for an absent or empty column,
   * otherwise true iff no present value is below the previous present value.
   */
  function ValidateCumulativeVariable(t: Table, column: string): (r: Tri)
    requires t.Valid()
    ensures r.None? <==> column !in t.cells || FirstPresent(t.cells[column]).None?
    ensures r == Some(true) <==>
      column in t.cells && FirstPresent(t.cells[column]).Some? && !HasDecrease(t.cells[column])
  {
    var r := ValidateColumns(t, column, NonNegative);
    assert column in t.cells ==> (HasDecrease(t.cells[column]) <==> r == Some(false)) by {
      if column in t.cells {
        var v := t.cells[column];
        assert forall i :: 0 <= i < t.rows ==> (StepCondition(v, NonNegative, i) == Some(false) <==> DecreaseAt(v, i));
      }
    }
    r
  }

  /** Every present value is at least every present value above it. */
  lemma SortedUpTo(v: Column, j: nat)
    requires !HasDecrease(v) && j < |v| && v[j].Some?
    ensures forall i :: 0 <= i < j && v[i].Some? ==> v[i].value <= v[j].value
    decreases j
  {
    match PrevPresent(v, j)
    case None =>
    case Some(p) =>
      assert !DecreaseAt(v, j);
      assert GapFreeDiff(v, j) == Some(v[j].value - v[p].value);
      SortedUpTo(v, p);
  }

  /** No decrease between consecutive present values means the present values are sorted. */
  lemma {:induction false} NoDecreaseMeansSorted(v: Column)
    ensures !HasDecrease(v) <==>
      forall i, j :: 0 <= i < j < |v| && v[i].Some? && v[j].Some? ==> v[i].value <= v[j].value
  {
    if !HasDecrease(v) {
      forall i, j | 0 <= i < j < |v| && v[i].Some? && v[j].Some?
        ensures v[i].value <= v[j].value
      {
        SortedUpTo(v, j);
      }
    } else {
      var t :| 0 <= t < |v| && DecreaseAt(v, t);
      var p := PrevPresent(v, t).value;
      assert v[p].value > v[t].value;
    }
  }

  /**
   * `validate_cumm_thesholds`: raises `KeyError` for a column without
   * thresholds; otherwise every step between consecutive present values
   * must lie within `[Min, Max]`, and a comparison with a missing bound is
   * skipped as NA.
   */
  function ValidateCummThresholds(t: Table, column: string, thresholds: Thresholds): (r: Result<Tri>)
    requires t.Valid()
    ensures r.Failure? <==> column !in thresholds
    ensures r.Failure? ==> r.error == KeyError
    ensures r.Success? ==> (r.value.None? <==> column !in t.cells || FirstPresent(t.cells[column]).None?)
    ensures r.Success? && thresholds[column].min.Some? && thresholds[column].max.Some? ==>
      (r.value == Some(true) <==>
        column in t.cells && FirstPresent(t.cells[column]).Some? &&
        forall i :: 0 <= i < t.rows && GapFreeDiff(t.cells[column], i).Some? ==>
          thresholds[column].min.value <= GapFreeDiff(t.cells[column], i).value <= thresholds[column].max.value)
  {
    if column !in thresholds then Failure(KeyError)
    else
      var b := thresholds[column];
      var r := ValidateColumns(t, column, WithinBounds(b));
      assert b.min.Some? && b.max.Some? && column in t.cells ==>
        forall i :: 0 <= i < t.rows && GapFreeDiff(t.cells[column], i).Some? ==>
          (StepCondition(t.cells[column], WithinBounds(b), i) != Some(false) <==>
           b.min.value <= GapFreeDiff(t.cells[column], i).value <= b.max.value);
      Success(r)
  }

  /** With both bounds "n.a." every comparison is NA, so any column with a value passes. */
  lemma MissingBoundsNeverFail(t: Table, column: string, thresholds: Thresholds)
    requires t.Valid() && column in thresholds && thresholds[column] == Bounds(None, None)
    requires column in t.cells && FirstPresent(t.cells[column]).Some?
    ensures ValidateCummThresholds(t, column, thresholds) == Success(Some(true))
  {
    var v := t.cells[column];
    forall i | 0 <= i < t.rows
      ensures StepCondition(v, WithinBounds(Bounds(None, None)), i) != Some(false)
    {
    }
  }

  // ---------------------------------------------------------------------
  // Record counts and time span

  /** `validate_monitoring_data_counts`: NA on an empty table. */
  function ValidateMonitoringDataCounts(t: Table): (r: Tri)
    ensures r.None? <==> t.rows == 0
    ensures r == Some(true) <==> 100000 <= t.rows <= 110000
  {
    if t.rows == 0 then None else Some(100000 <= t.rows <= 110000)
  }

  /**
   * The present row of `v` among the first `n` rows that a stable sort by
   * date puts first: the earliest date, the lowest row among equal dates.
   */
  function EarliestPresent(dates: seq<int>, v: Column, n: nat): (r: Option<nat>)
    requires |dates| == |v| && n <= |v|
    ensures r.None? <==> forall i :: 0 <= i < n ==> v[i].None?
    ensures r.Some? ==> r.value < n && v[r.value].Some?
    ensures r.Some? ==> forall i :: 0 <= i < n && v[i].Some? ==> dates[r.value] <= dates[i]
    ensures r.Some? ==> forall i :: 0 <= i < r.value && v[i].Some? ==> dates[r.value] < dates[i]
  {
    if n == 0 then None
    else
      var r := EarliestPresent(dates, v, n - 1);
      if v[n - 1].None? then r
      else if r.None? || dates[n - 1] < dates[r.value] then Some(n - 1)
      else r
  }

  /** The present row that a stable sort by date puts last. */
  function LatestPresent(dates: seq<int>, v: Column, n: nat): (r: Option<nat>)
    requires |dates| == |v| && n <= |v|
    ensures r.None? <==> forall i :: 0 <= i < n ==> v[i].None?
    ensures r.Some? ==> r.value < n && v[r.value].Some?
    ensures r.Some? ==> forall i :: 0 <= i < n && v[i].Some? ==> dates[i] <= dates[r.value]
    ensures r.Some? ==> forall i :: r.value < i < n && v[i].Some? ==> dates[i] < dates[r.value]
  {
    if n == 0 then None
    else
      var r := LatestPresent(dates, v, n - 1);
      if v[n - 1].None? then r
      else if r.None? || dates[r.value] <= dates[n - 1] then Some(n - 1)
      else r
  }

  /**
   * Over the present values in date order: the seconds from the first to
   * the last, and the rise of the column between them.
   */
  function Extent(dates: seq<int>, v: Column): (r: Option<(int, real)>)
    requires |dates| == |v|
    ensures r.None? <==> forall i :: 0 <= i < |v| ==> v[i].None?
    ensures r.Some? ==> r.value.0 >= 0
  {
    match EarliestPresent(dates, v, |v|)
    case None => None
    case Some(e) =>
      var l := LatestPresent(dates, v, |v|).value;
      Some((dates[l] - dates[e], v[l].value - v[e].value))
  }

  /** The extent of a column of the table, `None` without dates or column. */
  function ColumnExtent(t: Table, column: string): (r: Option<(int, real)>)
    requires t.Valid()
  {
    if column in t.cells && t.readingDate.Some? then Extent(t.readingDate.value, t.cells[column]) else None
  }

  /** The present values span at least 365 - 18 whole days. */
  predicate SpansYear(e: Option<(int, real)>)
  {
    e.Some? && e.value.0 >= EnoughDays * SecondsPerDay
  }

  /**
   * `validate_range`: NA for an absent or empty column; `KeyError` without
   * `ReadingDate`; false when the values span less than 347 days; then the
   * chained comparison `Min <= rise <= Max`, where a missing `Min` raises
   * `TypeError` (the truth of NA) and a missing `Max` gives NA.
   */
  function ValidateRange(t: Table, column: string, min: Option<real>, max: Option<real>): (r: Result<Tri>)
    requires t.Valid()
    ensures r == Failure(KeyError) <==> column in t.cells && t.readingDate.None?
    ensures r == Failure(TypeError) <==> SpansYear(ColumnExtent(t, column)) && min.None?
    ensures r.Failure? ==> r.error == KeyError || r.error == TypeError
    ensures r == Success(Some(true)) <==>
      SpansYear(ColumnExtent(t, column)) && min.Some? && max.Some? &&
      min.value <= ColumnExtent(t, column).value.1 <= max.value
    ensures r == Success(Some(false)) <==>
      (ColumnExtent(t, column).Some? && !SpansYear(ColumnExtent(t, column))) ||
      (SpansYear(ColumnExtent(t, column)) && min.Some? &&
       (ColumnExtent(t, column).value.1 < min.value ||
        (max.Some? && max.value < ColumnExtent(t, column).value.1)))
  {
    if column !in t.cells then Success(None)
    else if t.readingDate.None? then Failure(KeyError)
    else match Extent(t.readingDate.value, t.cells[column])
      case None => Success(None)
      case Some((span, rise)) =>
        if Days(span) < EnoughDays then Success(Some(false))
        else if min.None? then Failure(TypeError)
        else if rise < min.value then Success(Some(false))
        else if max.None? then Success(None)
        else Success(Some(rise <= max.value))
  }

  /** Seconds between the earliest and the latest timestamp. */
  function DateSpan(dates: seq<int>): (s: int)
    requires |dates| > 0
    ensures s >= 0
    ensures forall i, j :: 0 <= i < |dates| && 0 <= j < |dates| ==> dates[i] - dates[j] <= s
    ensures exists i, j :: 0 <= i < |dates| && 0 <= j < |dates| && dates[i] - dates[j] == s
  {
    assert forall i :: 0 <= i < |dates| ==> dates[i] in dates;
    TimestampAlignment.Max(dates) - ClockEstimation.Min(dates)
  }

  /**
   * `validate_approximately_one_year_of_records`: NA without `ReadingDate`;
   * an empty table spans `NaT`, which compares false.
   */
  function ValidateApproximatelyOneYearOfRecords(t: Table): (r: Tri)
    requires t.Valid()
    ensures r.None? <==> t.readingDate.None?
    ensures r == Some(true) <==>
      t.readingDate.Some? && t.rows > 0 &&
      EnoughDays * SecondsPerDay <= DateSpan(t.readingDate.value) < (365 + YearAllowedJitter + 1) * SecondsPerDay
  {
    if t.readingDate.None? then None
    else if t.rows == 0 then Some(false)
    else
      var days := Days(DateSpan(t.readingDate.value));
      Some(EnoughDays <= days <= 365 + YearAllowedJitter)
  }

  /** `validate_no_readingdate_gap`: every step between consecutive rows is 300 seconds. */
  function ValidateNoReadingDateGap(t: Table): (r: Result<bool>)
    requires t.Valid()
    ensures r.Failure? <==> t.readingDate.None?
    ensures r.Failure? ==> r.error == KeyError
    ensures r == Success(true) <==>
      t.readingDate.Some? && forall i :: 0 <= i < t.rows ==> t.readingDate.value[i] == t.readingDate.value[0] + 300 * i
  {
    if t.readingDate.None? then Failure(KeyError)
    else
      var dates := t.readingDate.value;
      EvenlySpaced(dates);
      Success(forall i :: 1 <= i < |dates| ==> dates[i] - dates[i - 1] == 300)
  }

  /** Steps of exactly 300 seconds are the same as lying on a 300-second grid from the first row. */
  lemma {:induction false} EvenlySpaced(dates: seq<int>)
    ensures (forall i :: 1 <= i < |dates| ==> dates[i] - dates[i - 1] == 300) <==>
      (forall i :: 0 <= i < |dates| ==> dates[i] == dates[0] + 300 * i)
  {
    if forall i :: 1 <= i < |dates| ==> dates[i] - dates[i - 1] == 300 {
      var k := 0;
      while k < |dates|
        invariant 0 <= k <= |dates|
        invariant forall i :: 0 <= i < k ==> dates[i] == dates[0] + 300 * i
      {
        if k > 0 {
          assert dates[k] - dates[k - 1] == 300;
        }
        k := k + 1;
      }
    }
  }

  /** `validate_columns_exist`: every column the analysis needs is in the table. */
  function ValidateColumnsExist(t: Table, analysisColumns: seq<string>): (r: bool)
    ensures r <==> forall c :: c in analysisColumns ==> t.Has(c)
  {
    forall c :: c in analysisColumns ==> t.Has(c)
  }

  // ---------------------------------------------------------------------
  // Heat generator energy

  const Warmtepomp: string := "ElektriciteitsgebruikWarmtepomp"
  const Booster: string := "ElektriciteitsgebruikBooster"
  const Boilervat: string := "ElektriciteitsgebruikBoilervat"
  const Warmteopwekker: string := "EnergiegebruikWarmteopwekker"

  /** Row-wise sum of three nullable columns; a missing term makes the sum missing. */
  function Sum3(a: Column, b: Column, c: Column): (s: Column)
    requires |a| == |b| == |c|
    ensures |s| == |a|
    ensures forall i :: 0 <= i < |a| ==> (s[i].Some? <==> a[i].Some? && b[i].Some? && c[i].Some?)
    ensures forall i :: 0 <= i < |a| && s[i].Some? ==> s[i].value == a[i].value + b[i].value + c[i].value
  {
    seq(|a|, i requires 0 <= i < |a| =>
      if a[i].Some? && b[i].Some? && c[i].Some? then Some(a[i].value + b[i].value + c[i].value) else None)
  }

  predicate HasHeatColumns(t: Table)
  {
    Warmtepomp in t.cells && Booster in t.cells && Boilervat in t.cells
  }

  /** The table with the heat generator's energy column written into it. */
  function WithWarmteopwekker(t: Table): (r: Table)
    requires t.Valid() && HasHeatColumns(t)
    ensures r.Valid() && r.rows == t.rows && r.readingDate == t.readingDate
    ensures r.cells == t.cells[Warmteopwekker := Sum3(t.cells[Warmtepomp], t.cells[Booster], t.cells[Boilervat])]
  {
    Table(t.rows, t.readingDate,
      t.cells[Warmteopwekker := Sum3(t.cells[Warmtepomp], t.cells[Booster], t.cells[Boilervat])],
      t.flags - {Warmteopwekker})
  }

  /**
   * `validate_energiegebruik_warmteopwekker`: writes the sum of the three
   * electricity columns into the caller's table (a `KeyError` when one is
   * absent) and checks its yearly rise against 100..20000.
   */
  function ValidateEnergiegebruikWarmteopwekker(t: Table): (r: (Table, Result<Tri>))
    requires t.Valid()
    ensures r.0.Valid()
    ensures !HasHeatColumns(t) ==> r == (t, Failure(KeyError))
    ensures HasHeatColumns(t) ==> r.0 == WithWarmteopwekker(t)
    ensures r.1.Failure? <==> !HasHeatColumns(t) || t.readingDate.None?
    ensures r.1.Failure? ==> r.1.error == KeyError
    ensures r.1 == Success(Some(true)) <==>
      HasHeatColumns(t) && t.readingDate.Some? &&
      var e := Extent(t.readingDate.value, Sum3(t.cells[Warmtepomp], t.cells[Booster], t.cells[Boilervat]));
      SpansYear(e) && 100.0 <= e.value.1 <= 20000.0
  {
    if !HasHeatColumns(t) then (t, Failure(KeyError))
    else
      var t' := WithWarmteopwekker(t);
      (t', ValidateRange(t', Warmteopwekker, Some(100.0), Some(20000.0)))
  }

  // ---------------------------------------------------------------------
  // Per-variable validators built from the threshold table

  /**
   * The function `create_validate_func_col` builds: the Kleene AND of the
   * non-decreasing check and the range check with the bounds captured at
   * creation; an exception of the range check propagates.
   */
  function ValidateFuncCol(t: Table, col: string, bounds: Bounds): (r: Result<Tri>)
    requires t.Valid()
    ensures r.Failure? <==> ValidateRange(t, col, bounds.min, bounds.max).Failure?
    ensures r == Success(Some(true)) <==>
      ValidateCumulativeVariable(t, col) == Some(true) && ValidateRange(t, col, bounds.min, bounds.max) == Success(Some(true))
    ensures r == Success(Some(false)) <==>
      ValidateRange(t, col, bounds.min, bounds.max).Success? &&
      (ValidateCumulativeVariable(t, col) == Some(false) || ValidateRange(t, col, bounds.min, bounds.max) == Success(Some(false)))
  {
    var nonDecreasing := ValidateCumulativeVariable(t, col);
    match ValidateRange(t, col, bounds.min, bounds.max)
    case Failure(e) => Failure(e)
    case Success(inRange) => Success(And3(nonDecreasing, inRange))
  }

  /**
   * A variable passes its per-variable check exactly when its present values
   * never decrease, span a year, and rise by an amount within both bounds.
   */
  lemma ValidateFuncColPasses(t: Table, col: string, bounds: Bounds)
    requires t.Valid()
    ensures ValidateFuncCol(t, col, bounds) == Success(Some(true)) <==>
      col in t.cells && t.readingDate.Some? &&
      (forall i, j :: 0 <= i < j < t.rows && t.cells[col][i].Some? && t.cells[col][j].Some? ==>
        t.cells[col][i].value <= t.cells[col][j].value) &&
      SpansYear(ColumnExtent(t, col)) && bounds.min.Some? && bounds.max.Some? &&
      bounds.min.value <= ColumnExtent(t, col).value.1 <= bounds.max.value
  {
    if col in t.cells {
      NoDecreaseMeansSorted(t.cells[col]);
      if SpansYear(ColumnExtent(t, col)) {
        assert FirstPresent(t.cells[col]).Some?;
      }
    }
  }

  /** `create_validate_func_col`: the thresholds are looked up when the check is built. */
  function CreateValidateFuncCol(col: string, thresholds: Thresholds): (r: Result<DatasetCheck>)
    ensures r.Failure? <==> col !in thresholds
    ensures r.Failure? ==> r.error == KeyError
    ensures r.Success? ==> r.value.ColumnCheck? && KeyOf(r.value) == "validate_" + col && r.value.bounds == thresholds[col]
  {
    if col in thresholds then Success(ColumnCheck(col, thresholds[col])) else Failure(KeyError)
  }

  /**
   * The check `create_validate_func_outliers_neg_cum` builds: every row's
   * `validate_<col>Diff` flag is NA or true; the flag column must exist.
   */
  function ValidateNoOutliersNegativeCumulativeDiff(t: Table, col: string): (r: Result<bool>)
    ensures r.Failure? <==> FlagName("validate_", col, "Diff") !in t.flags
    ensures r.Failure? ==> r.error == KeyError
    ensures r.Success? ==> (r.value <==>
      forall i :: 0 <= i < |t.flags[FlagName("validate_", col, "Diff")]| ==>
        t.flags[FlagName("validate_", col, "Diff")][i].None? || t.flags[FlagName("validate_", col, "Diff")][i] == Some(true))
  {
    var key := FlagName("validate_", col, "Diff");
    if key !in t.flags then Failure(KeyError)
    else
      var s := t.flags[key];
      forall i | 0 <= i < |s|
        ensures s[i] != Some(false) <==> s[i].None? || s[i] == Some(true)
      {
        if s[i].Some? && s[i].value {
          assert s[i] == Some(true);
        }
      }
      Success(NoFalse(s))
  }

  // ---------------------------------------------------------------------
  // dataset_flag_conditions

  /** A value of `dataset_flag_conditions`: which validator fills the flag. */
  datatype DatasetCheck =
    | MonitoringDataCounts
    | EnergiegebruikWarmteopwekker
    | ApproximatelyOneYearOfRecords
    | ColumnsExist
    | NoReadingDateGap
    | ColumnCheck(col: string, bounds: Bounds)
    | DiffCheck(col: string)

  /** The index column a check fills. */
  function KeyOf(c: DatasetCheck): string
  {
    match c
    case MonitoringDataCounts => "validate_monitoring_data_counts"
    case EnergiegebruikWarmteopwekker => "validate_energiegebruik_warmteopwekker"
    case ApproximatelyOneYearOfRecords => "validate_approximately_one_year_of_records"
    case ColumnsExist => "validate_columns_exist"
    case NoReadingDateGap => "validate_no_readingdate_gap"
    case ColumnCheck(col, _) => "validate_" + col
    case DiffCheck(col) => FlagName("validate_", col, "Diff")
  }

  /** Calling the validator a check stands for on a household table. */
  function Evaluate(c: DatasetCheck, t: Table, analysisColumns: seq<string>): (r: Result<Tri>)
    requires t.Valid()
    ensures r.Failure? ==> r.error == KeyError || r.error == TypeError
    ensures c == MonitoringDataCounts || c == ApproximatelyOneYearOfRecords || c == ColumnsExist ==> r.Success?
  {
    match c
    case MonitoringDataCounts => Success(ValidateMonitoringDataCounts(t))
    case EnergiegebruikWarmteopwekker => ValidateEnergiegebruikWarmteopwekker(t).1
    case ApproximatelyOneYearOfRecords => Success(ValidateApproximatelyOneYearOfRecords(t))
    case ColumnsExist => Success(Some(ValidateColumnsExist(t, analysisColumns)))
    case NoReadingDateGap =>
      (match ValidateNoReadingDateGap(t)
       case Failure(e) => Failure(e)
       case Success(b) => Success(Some(b)))
    case ColumnCheck(col, bounds) => ValidateFuncCol(t, col, bounds)
    case DiffCheck(col) =>
      (match ValidateNoOutliersNegativeCumulativeDiff(t, col)
       case Failure(e) => Failure(e)
       case Success(b) => Success(Some(b)))
  }

  /** The five checks that do not depend on a variable. */
  function SpecialChecks(): (m: map<string, DatasetCheck>)
    ensures |m.Keys| == 5
    ensures forall k :: k in m ==> KeyOf(m[k]) == k
  {
    map[
      KeyOf(MonitoringDataCounts) := MonitoringDataCounts,
      KeyOf(EnergiegebruikWarmteopwekker) := EnergiegebruikWarmteopwekker,
      KeyOf(ApproximatelyOneYearOfRecords) := ApproximatelyOneYearOfRecords,
      KeyOf(ColumnsExist) := ColumnsExist,
      KeyOf(NoReadingDateGap) := NoReadingDateGap]
  }

  /** The two flag names each cumulative variable adds. */
  function ColumnKeys(cs: seq<string>): set<string>
  {
    if cs == [] then {}
    else {"validate_" + cs[0], FlagName("validate_", cs[0], "Diff")} + ColumnKeys(cs[1..])
  }

  /** The flag names of a list of variables are the two names of each of its variables. */
  lemma {:induction false} ColumnKeysMeaning(cs: seq<string>)
    ensures forall k :: k in ColumnKeys(cs) <==>
      exists c :: c in cs && (k == "validate_" + c || k == FlagName("validate_", c, "Diff"))
  {
    if cs != [] {
      ColumnKeysMeaning(cs[1..]);
      assert forall c :: c in cs <==> c == cs[0] || c in cs[1..];
    }
  }

  /** `conditions[key] = check` where the key is the flag the check fills. */
  function Register(conditions: map<string, DatasetCheck>, check: DatasetCheck): map<string, DatasetCheck>
  {
    conditions[KeyOf(check) := check]
  }

  /**
   * The rest of the loop over the cumulative variables `cs`, continuing from
   * the checks in `conditions`.
   */
  function AddColumnChecks(conditions: map<string, DatasetCheck>, cs: seq<string>, thresholds: Thresholds)
    : Result<map<string, DatasetCheck>>
    decreases |cs|
  {
    if cs == [] then Success(conditions)
    else
      match CreateValidateFuncCol(cs[0], thresholds)
      case Failure(e) => Failure(e)
      case Success(check) =>
        AddColumnChecks(Register(Register(conditions, check), DiffCheck(cs[0])), cs[1..], thresholds)
  }

  /** The construction raises `KeyError` exactly when a variable has no thresholds. */
  lemma {:induction false} AddColumnChecksFails(conditions: map<string, DatasetCheck>, cs: seq<string>, thresholds: Thresholds)
    ensures AddColumnChecks(conditions, cs, thresholds).Failure? <==> exists c :: c in cs && c !in thresholds
    ensures AddColumnChecks(conditions, cs, thresholds).Failure? ==> AddColumnChecks(conditions, cs, thresholds).error == KeyError
    decreases |cs|
  {
    if cs != [] {
      assert forall c :: c in cs <==> c == cs[0] || c in cs[1..];
      if cs[0] in thresholds {
        var next := Register(Register(conditions, ColumnCheck(cs[0], thresholds[cs[0]])), DiffCheck(cs[0]));
        assert AddColumnChecks(conditions, cs, thresholds) == AddColumnChecks(next, cs[1..], thresholds);
        AddColumnChecksFails(next, cs[1..], thresholds);
      }
    }
  }

  /** The key set is the one the construction started from plus two flags per variable. */
  lemma {:induction false} AddColumnChecksKeys(conditions: map<string, DatasetCheck>, cs: seq<string>, thresholds: Thresholds)
    ensures AddColumnChecks(conditions, cs, thresholds).Success? ==>
      AddColumnChecks(conditions, cs, thresholds).value.Keys == conditions.Keys + ColumnKeys(cs)
    decreases |cs|
  {
    if cs != [] && cs[0] in thresholds {
      var next := Register(Register(conditions, ColumnCheck(cs[0], thresholds[cs[0]])), DiffCheck(cs[0]));
      assert next.Keys == conditions.Keys + {"validate_" + cs[0], FlagName("validate_", cs[0], "Diff")};
      assert AddColumnChecks(conditions, cs, thresholds) == AddColumnChecks(next, cs[1..], thresholds);
      AddColumnChecksKeys(next, cs[1..], thresholds);
    }
  }

  /**
   * Every entry of `dataset_flag_conditions` is filed under the flag it
   * fills, and the bounds of a variable's check are its thresholds.
   */
  lemma {:induction false} AddColumnChecksFiled(conditions: map<string, DatasetCheck>, cs: seq<string>, thresholds: Thresholds)
    requires forall k :: k in conditions ==> KeyOf(conditions[k]) == k
    requires forall k :: k in conditions && conditions[k].ColumnCheck? ==>
      conditions[k].col in thresholds && conditions[k].bounds == thresholds[conditions[k].col]
    ensures AddColumnChecks(conditions, cs, thresholds).Success? ==>
      var m := AddColumnChecks(conditions, cs, thresholds).value;
      (forall k :: k in m ==> KeyOf(m[k]) == k) &&
      (forall k :: k in m && m[k].ColumnCheck? ==> m[k].col in thresholds && m[k].bounds == thresholds[m[k].col])
    decreases |cs|
  {
    if cs != [] && cs[0] in thresholds {
      var next := Register(Register(conditions, ColumnCheck(cs[0], thresholds[cs[0]])), DiffCheck(cs[0]));
      assert AddColumnChecks(conditions, cs, thresholds) == AddColumnChecks(next, cs[1..], thresholds);
      AddColumnChecksFiled(next, cs[1..], thresholds);
    }
  }

  /**
   * Building `dataset_flag_conditions`: the five special checks, then two
   * checks per cumulative variable; a variable missing from the threshold
   * table raises `KeyError` when its check is created.
   */
  method BuildDatasetFlagConditions(cumulative: seq<string>, thresholds: Thresholds)
    returns (r: Result<map<string, DatasetCheck>>)
    ensures r == AddColumnChecks(SpecialChecks(), cumulative, thresholds)
  {
    var conditions := SpecialChecks();
    var n := 0;
    while n < |cumulative|
      invariant 0 <= n <= |cumulative|
      invariant AddColumnChecks(conditions, cumulative[n..], thresholds) == AddColumnChecks(SpecialChecks(), cumulative, thresholds)
    {
      var col := cumulative[n];
      assert cumulative[n..][1..] == cumulative[n + 1..];
      var check := CreateValidateFuncCol(col, thresholds);
      if check.Failure? {
        return Failure(check.error);
      }
      conditions := Register(conditions, check.value);
      conditions := Register(conditions, DiffCheck(col));
      n := n + 1;
    }
    return Success(conditions);
  }

  /** What the built conditions hold, for any list of cumulative variables. */
  lemma DatasetFlagConditionsMeaning(cumulative: seq<string>, thresholds: Thresholds)
    ensures AddColumnChecks(SpecialChecks(), cumulative, thresholds).Failure? <==>
      exists c :: c in cumulative && c !in thresholds
    ensures AddColumnChecks(SpecialChecks(), cumulative, thresholds).Success? ==>
      var m := AddColumnChecks(SpecialChecks(), cumulative, thresholds).value;
      m.Keys == SpecialChecks().Keys + ColumnKeys(cumulative) && forall k :: k in m ==> KeyOf(m[k]) == k
  {
    AddColumnChecksFails(SpecialChecks(), cumulative, thresholds);
    AddColumnChecksKeys(SpecialChecks(), cumulative, thresholds);
    AddColumnChecksFiled(SpecialChecks(), cumulative, thresholds);
  }
}
