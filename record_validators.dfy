/*
 * The per-row validators of etdmap/record_validators.py. Each one answers,
 * for every row of a mapped household table, true, false or NA (`None`);
 * `record_flag_conditions` names each validator by the flag column it
 * fills.
 */
module RecordValidators {
  import opened Basics
  import opened Tables

  // ---------------------------------------------------------------------
  // validate_column and the balance checks

  predicate HasAll(t: Table, columns: seq<string>)
  {
    forall c :: c in columns ==> c in t.cells
  }

  /** Row `i` has a value in every listed column. */
  predicate RowFull(t: Table, columns: seq<string>, i: nat)
    requires t.Valid() && HasAll(t, columns) && i < t.rows
  {
    forall k :: 0 <= k < |columns| ==> t.cells[columns[k]][i].Some?
  }

  /** The values of the listed columns in a full row, in the order listed. */
  function RowValues(t: Table, columns: seq<string>, i: nat): (r: seq<real>)
    requires t.Valid() && HasAll(t, columns) && i < t.rows && RowFull(t, columns, i)
    ensures |r| == |columns| && forall k :: 0 <= k < |columns| ==> r[k] == t.cells[columns[k]][i].value
  {
    seq(|columns|, k requires 0 <= k < |columns| => t.cells[columns[k]][i].value)
  }

  /**
   * `validate_column`: all NA when a listed column is absent; otherwise NA
   * on every row with a missing value and the condition on the others.
   */
  function ValidateColumn(t: Table, columns: seq<string>, cond: seq<real> -> bool): (r: seq<Tri>)
    requires t.Valid()
    ensures |r| == t.rows
    ensures forall i :: 0 <= i < t.rows ==> (r[i].None? <==> !HasAll(t, columns) || !RowFull(t, columns, i))
    ensures forall i :: 0 <= i < t.rows && r[i].Some? ==> r[i].value == cond(RowValues(t, columns, i))
  {
    if !HasAll(t, columns) then AllNA(t.rows)
    else
      seq(t.rows, i requires 0 <= i < t.rows =>
        if RowFull(t, columns, i) then Some(cond(RowValues(t, columns, i))) else None)
  }

  const Huishoudelijk: string := "ElektriciteitsgebruikHuishoudelijk"
  const ZonOpwek: string := "Zon-opwekTotaal"
  const NetHoog: string := "ElektriciteitNetgebruikHoog"
  const NetLaag: string := "ElektriciteitNetgebruikLaag"
  const WarmteWarmtepomp: string := "WarmteproductieWarmtepomp"
  const WarmteTapwater: string := "WarmteproductieWarmTapwater"

  /** The value of a column at a row, `None` when the column is absent. */
  function At(t: Table, c: string, i: nat): Option<real>
    requires t.Valid() && i < t.rows
  {
    if c in t.cells then t.cells[c][i] else None
  }

  /**
   * `validate_elektriciteitgebruik`: household use is at most solar yield
   * plus both grid tariffs, on every row where all four are known.
   */
  function ValidateElektriciteitgebruik(t: Table): (r: seq<Tri>)
    requires t.Valid()
    ensures |r| == t.rows
    ensures forall i :: 0 <= i < t.rows ==>
      (r[i].Some? <==> At(t, Huishoudelijk, i).Some? && At(t, ZonOpwek, i).Some? && At(t, NetHoog, i).Some? && At(t, NetLaag, i).Some?)
    ensures forall i :: 0 <= i < t.rows && r[i].Some? ==>
      (r[i].value <==> At(t, Huishoudelijk, i).value <= At(t, ZonOpwek, i).value + At(t, NetHoog, i).value + At(t, NetLaag, i).value)
  {
    var columns := [Huishoudelijk, ZonOpwek, NetHoog, NetLaag];
    var r := ValidateColumn(t, columns, xs => |xs| == 4 && xs[0] <= xs[1] + xs[2] + xs[3]);
    assert forall i :: 0 <= i < t.rows ==>
      (HasAll(t, columns) && RowFull(t, columns, i) <==>
       At(t, Huishoudelijk, i).Some? && At(t, ZonOpwek, i).Some? && At(t, NetHoog, i).Some? && At(t, NetLaag, i).Some?) by {
      forall i | 0 <= i < t.rows
        ensures HasAll(t, columns) && RowFull(t, columns, i) <==>
          At(t, Huishoudelijk, i).Some? && At(t, ZonOpwek, i).Some? && At(t, NetHoog, i).Some? && At(t, NetLaag, i).Some?
      {
        if HasAll(t, columns) {
          assert columns[0] == Huishoudelijk && columns[1] == ZonOpwek && columns[2] == NetHoog && columns[3] == NetLaag;
        }
      }
    }
    r
  }

  /** `validate_warmteproductie`: the heat pump yields at least the tap water heat. */
  function ValidateWarmteproductie(t: Table): (r: seq<Tri>)
    requires t.Valid()
    ensures |r| == t.rows
    ensures forall i :: 0 <= i < t.rows ==>
      (r[i].Some? <==> At(t, WarmteWarmtepomp, i).Some? && At(t, WarmteTapwater, i).Some?)
    ensures forall i :: 0 <= i < t.rows && r[i].Some? ==>
      (r[i].value <==> At(t, WarmteTapwater, i).value <= At(t, WarmteWarmtepomp, i).value)
  {
    var columns := [WarmteWarmtepomp, WarmteTapwater];
    var r := ValidateColumn(t, columns, xs => |xs| == 2 && xs[0] >= xs[1]);
    assert forall i :: 0 <= i < t.rows ==>
      (HasAll(t, columns) && RowFull(t, columns, i) <==> At(t, WarmteWarmtepomp, i).Some? && At(t, WarmteTapwater, i).Some?) by {
      forall i | 0 <= i < t.rows
        ensures HasAll(t, columns) && RowFull(t, columns, i) <==> At(t, WarmteWarmtepomp, i).Some? && At(t, WarmteTapwater, i).Some?
      {
        if HasAll(t, columns) {
          assert columns[0] == WarmteWarmtepomp && columns[1] == WarmteTapwater;
        }
      }
    }
    r
  }

  // ---------------------------------------------------------------------
  // ReadingDate checks

  /** No earlier row has the same date: `~df.duplicated(subset=['ReadingDate'])`. */
  predicate FirstOccurrence(dates: seq<int>, i: nat)
    requires i < |dates|
  {
    forall j :: 0 <= j < i ==> dates[j] != dates[i]
  }

  /** `validate_reading_date_uniek`: true on the first row of each date, false on its repeats. */
  function ValidateReadingDateUniek(t: Table): (r: Result<seq<bool>>)
    requires t.Valid()
    ensures r.Failure? <==> t.readingDate.None?
    ensures r.Failure? ==> r.error == KeyError
    ensures r.Success? ==> |r.value| == t.rows
    ensures r.Success? ==> forall i :: 0 <= i < t.rows ==> (r.value[i] <==> FirstOccurrence(t.readingDate.value, i))
  {
    if t.readingDate.None? then Failure(KeyError)
    else Success(seq(t.rows, i requires 0 <= i < t.rows => FirstOccurrence(t.readingDate.value, i)))
  }

  /** Every date of the table has exactly one row that the uniqueness check marks true. */
  lemma UniekMarksOneRowPerDate(t: Table, d: int)
    requires t.Valid() && t.readingDate.Some? && d in t.readingDate.value
    ensures var marked := ValidateReadingDateUniek(t).value;
      (exists i :: 0 <= i < t.rows && t.readingDate.value[i] == d && marked[i]) &&
      (forall i, j :: 0 <= i < j < t.rows && marked[i] && marked[j] ==> t.readingDate.value[i] != t.readingDate.value[j])
  {
    var dates := t.readingDate.value;
    var marked := ValidateReadingDateUniek(t).value;
    var k :| 0 <= k < |dates| && dates[k] == d;
    var first := FirstWith(dates, d, k);
    assert marked[first];
  }

  /** The lowest row holding date `d`, given a row `k` that holds it. */
  lemma FirstWith(dates: seq<int>, d: int, k: nat) returns (first: nat)
    requires k < |dates| && dates[k] == d
    ensures first <= k && dates[first] == d && FirstOccurrence(dates, first)
  {
    var j := 0;
    while j < k && dates[j] != d
      invariant 0 <= j <= k
      invariant forall m :: 0 <= m < j ==> dates[m] != d
    {
      j := j + 1;
    }
    first := j;
  }

  /** Row `j` comes before row `i` once sorted by date, equal dates keeping table order. */
  predicate SortedBefore(dates: seq<int>, j: nat, i: nat)
    requires j < |dates| && i < |dates|
  {
    dates[j] < dates[i] || (dates[j] == dates[i] && j < i)
  }

  /** The date of the row just before row `i` in date order, among the first `n` rows. */
  function PreviousDate(dates: seq<int>, i: nat, n: nat): (r: Option<int>)
    requires i < |dates| && n <= |dates|
    ensures r.None? <==> forall j :: 0 <= j < n ==> !SortedBefore(dates, j, i)
    ensures r.Some? ==> exists j :: 0 <= j < n && SortedBefore(dates, j, i) && dates[j] == r.value
    ensures r.Some? ==> forall j :: 0 <= j < n && SortedBefore(dates, j, i) ==> dates[j] <= r.value
  {
    if n == 0 then None
    else
      var r := PreviousDate(dates, i, n - 1);
      if !SortedBefore(dates, n - 1, i) then r
      else if r.None? || r.value < dates[n - 1] then Some(dates[n - 1])
      else r
  }

  /**
   * `validate_300sec`: on a copy sorted by date, NA for the earliest row and
   * otherwise whether the step from the row before it is 300 seconds; the
   * result is aligned back to the rows of the table.
   */
  function Validate300Sec(t: Table): (r: Result<seq<Tri>>)
    requires t.Valid()
    ensures r.Failure? <==> t.readingDate.None?
    ensures r.Failure? ==> r.error == KeyError
    ensures r.Success? ==> |r.value| == t.rows
    ensures r.Success? ==> forall i :: 0 <= i < t.rows ==>
      (r.value[i].None? <==> forall j :: 0 <= j < t.rows ==> !SortedBefore(t.readingDate.value, j, i))
    ensures r.Success? ==> forall i :: 0 <= i < t.rows ==>
      (r.value[i] == Some(true) <==>
        (exists j :: 0 <= j < t.rows && SortedBefore(t.readingDate.value, j, i) && t.readingDate.value[j] == t.readingDate.value[i] - 300) &&
        (forall j :: 0 <= j < t.rows && SortedBefore(t.readingDate.value, j, i) ==> t.readingDate.value[j] <= t.readingDate.value[i] - 300))
  {
    if t.readingDate.None? then Failure(KeyError)
    else
      var dates := t.readingDate.value;
      Success(seq(t.rows, i requires 0 <= i < t.rows =>
        match PreviousDate(dates, i, t.rows)
        case None => None
        case Some(p) => Some(dates[i] - p == 300)))
  }

  // ---------------------------------------------------------------------
  // Thresholds

  /** Kleene `Min <= x & x <= Max`, NA for a missing value. */
  function InBounds(x: Option<real>, b: Bounds): (r: Tri)
    ensures r == Some(true) <==> x.Some? && b.min.Some? && b.max.Some? && b.min.value <= x.value <= b.max.value
    ensures x.None? ==> r.None?
  {
    if x.None? then None else And3(AtLeast(x.value, b.min), AtMost(x.value, b.max))
  }

  /** A measured column of the table that the threshold table lists. */
  predicate Thresholded(t: Table, thresholds: Thresholds, c: string)
  {
    c in t.cells && c in thresholds
  }

  /** Every thresholded column is missing at row `i`. */
  predicate AllMissing(t: Table, thresholds: Thresholds, i: nat)
    requires t.Valid() && i < t.rows
  {
    forall c :: c in t.cells && c in thresholds ==> t.cells[c][i].None?
  }

  /**
   * `validate_thresholds_combined`: per row, whether at least one thresholded
   * column lies within its bounds (NA comparisons count as not within), NA
   * when every thresholded column is missing. With no thresholded column the
   * masks have no rows and the result is empty.
   */
  function ValidateThresholdsCombined(t: Table, thresholds: Thresholds): (r: seq<Tri>)
    requires t.Valid()
    ensures (forall c :: c in t.cells ==> c !in thresholds) ==> r == []
    ensures (exists c :: Thresholded(t, thresholds, c)) ==> |r| == t.rows
    ensures |r| == t.rows ==> forall i :: 0 <= i < |r| ==> (r[i].None? <==> AllMissing(t, thresholds, i))
    ensures |r| == t.rows ==> forall i :: 0 <= i < |r| ==>
      (r[i] == Some(true) <==>
        exists c :: Thresholded(t, thresholds, c) && t.cells[c][i].Some? &&
          thresholds[c].min.Some? && thresholds[c].max.Some? &&
          thresholds[c].min.value <= t.cells[c][i].value <= thresholds[c].max.value)
  {
    if forall c :: c in t.cells ==> c !in thresholds then []
    else
      seq(t.rows, i requires 0 <= i < t.rows =>
        if AllMissing(t, thresholds, i) then None
        else Some(exists c :: c in t.cells && c in thresholds && InBounds(t.cells[c][i], thresholds[c]) == Some(true)))
  }

  const Unbounded: real := 999999.0

  /**
   * `condition_func_threshold`: the bounds of a listed variable, a bound
   * given as "n.a." replaced by -999999 or 999999; no condition for a
   * variable the threshold table does not list.
   */
  function ConditionFuncThreshold(col: string, thresholds: Thresholds): (r: Option<(real, real)>)
    ensures r.Some? <==> col in thresholds
    ensures r.Some? ==> (thresholds[col].min.Some? ==> r.value.0 == thresholds[col].min.value)
    ensures r.Some? ==> (thresholds[col].max.Some? ==> r.value.1 == thresholds[col].max.value)
    ensures r.Some? ==> (thresholds[col].min.None? ==> r.value.0 == -Unbounded)
    ensures r.Some? ==> (thresholds[col].max.None? ==> r.value.1 == Unbounded)
  {
    if col !in thresholds then None
    else
      var b := thresholds[col];
      Some((if b.min.Some? then b.min.value else -Unbounded, if b.max.Some? then b.max.value else Unbounded))
  }

  /** The condition a threshold pair gives a value. */
  predicate WithinThreshold(bounds: (real, real), v: real)
  {
    bounds.0 <= v <= bounds.1
  }

  /**
   * Within +-999999 the converted bounds behave as if an "n.a." bound were
   * absent: a value passes iff it respects every bound that is given.
   */
  lemma ThresholdConditionRespectsGivenBounds(col: string, thresholds: Thresholds, v: real)
    requires col in thresholds && -Unbounded <= v <= Unbounded
    ensures WithinThreshold(ConditionFuncThreshold(col, thresholds).value, v) <==>
      (thresholds[col].min.None? || thresholds[col].min.value <= v) &&
      (thresholds[col].max.None? || v <= thresholds[col].max.value)
  {
  }

  /** Beyond 999999 the replacement bound rejects a value that no given bound excludes. */
  lemma UnboundedIsFinite()
    ensures var thresholds := map["Gasgebruik" := Bounds(Some(0.0), None)];
      !WithinThreshold(ConditionFuncThreshold("Gasgebruik", thresholds).value, 1000000.0)
  {
  }

  // ---------------------------------------------------------------------
  // record_flag_conditions

  /** A value of `record_flag_conditions`: which validator fills the flag. */
  datatype RecordCheck =
    | ReadingDateUniek
    | Step300
    | Elektriciteitgebruik
    | Warmteproductie
    | ThresholdsCombined
    | DiffOutliers(col: string)

  /** The flag column a check fills. */
  function KeyOf(c: RecordCheck): string
  {
    match c
    case ReadingDateUniek => "validate_reading_date_uniek"
    case Step300 => "validate_300sec"
    case Elektriciteitgebruik => "validate_elektriciteitgebruik"
    case Warmteproductie => "validate_warmteproductie"
    case ThresholdsCombined => "validate_thresholds_combined"
    case DiffOutliers(col) => FlagName("validate_", col, "Diff_outliers")
  }

  /** The five checks that do not depend on a variable. */
  function SpecialChecks(): (m: map<string, RecordCheck>)
    ensures |m.Keys| == 5
    ensures forall k :: k in m ==> KeyOf(m[k]) == k
  {
    map[
      KeyOf(ReadingDateUniek) := ReadingDateUniek,
      KeyOf(Step300) := Step300,
      KeyOf(Elektriciteitgebruik) := Elektriciteitgebruik,
      KeyOf(Warmteproductie) := Warmteproductie,
      KeyOf(ThresholdsCombined) := ThresholdsCombined]
  }

  /** The rest of `create_validate_comulative`'s loop over `cs`. */
  function AddOutlierChecks(conditions: map<string, RecordCheck>, cs: seq<string>): map<string, RecordCheck>
    decreases |cs|
  {
    if cs == [] then conditions
    else AddOutlierChecks(conditions[KeyOf(DiffOutliers(cs[0])) := DiffOutliers(cs[0])], cs[1..])
  }

  /**
   * The loop adds exactly one outlier flag per variable and files every
   * check under the flag it fills.
   */
  lemma {:induction false} AddOutlierChecksMeaning(conditions: map<string, RecordCheck>, cs: seq<string>)
    requires forall k :: k in conditions ==> KeyOf(conditions[k]) == k
    ensures var m := AddOutlierChecks(conditions, cs);
      (forall k :: k in m <==> k in conditions || exists c :: c in cs && k == FlagName("validate_", c, "Diff_outliers")) &&
      (forall k :: k in m ==> KeyOf(m[k]) == k)
    decreases |cs|
  {
    if cs != [] {
      assert forall c :: c in cs <==> c == cs[0] || c in cs[1..];
      AddOutlierChecksMeaning(conditions[KeyOf(DiffOutliers(cs[0])) := DiffOutliers(cs[0])], cs[1..]);
    }
  }

  /**
   * Building `record_flag_conditions`: the five special checks, then one
   * outlier check per cumulative variable.
   */
  method BuildRecordFlagConditions(cumulative: seq<string>) returns (conditions: map<string, RecordCheck>)
    ensures conditions == AddOutlierChecks(SpecialChecks(), cumulative)
  {
    conditions := SpecialChecks();
    var n := 0;
    while n < |cumulative|
      invariant 0 <= n <= |cumulative|
      invariant AddOutlierChecks(conditions, cumulative[n..]) == AddOutlierChecks(SpecialChecks(), cumulative)
    {
      assert cumulative[n..][1..] == cumulative[n + 1..];
      var col := cumulative[n];
      conditions := conditions[KeyOf(DiffOutliers(col)) := DiffOutliers(col)];
      n := n + 1;
    }
  }
}
