/*
 * The plausibility checks that etdmap runs on the cumulative meter columns of
 * one household before it derives their per-interval differences
 * (`validate_cumulative_variables` in etdmap/mapping_helpers.py).
 *
 * A household is a `Group`: its reading dates (seconds) and its columns, all
 * of the same length. The checks look at each column through its present
 * values only, exactly as the source does after `dropna()`.
 */
module CounterChecks {
  import opened Basics

  datatype Group = Group(dates: seq<int>, columns: map<string, Column>)

  predicate WellFormed(g: Group)
  {
    forall c :: c in g.columns ==> |g.columns[c]| == |g.dates|
  }

  /** The row of the last present value strictly before row `i`. */
  function PrevPresent(v: Column, i: nat): (r: Option<nat>)
    requires i <= |v|
    ensures r.Some? ==> r.value < i && v[r.value].Some?
    ensures r.Some? ==> forall j :: r.value < j < i ==> v[j].None?
    ensures r.None? ==> forall j :: 0 <= j < i ==> v[j].None?
    decreases i
  {
    if i == 0 then None
    else if v[i - 1].Some? then Some(i - 1)
    else PrevPresent(v, i - 1)
  }

  /**
   * The difference of a present value to the previous present value, skipping
   * missing rows (the source's `Diff_no_gap`); missing for a missing row and
   * for the first present row.
   */
  function GapFreeDiff(v: Column, i: nat): (r: Option<real>)
    requires i < |v|
    ensures r.Some? <==> v[i].Some? && exists j :: 0 <= j < i && v[j].Some?
    ensures r.Some? ==> exists j :: 0 <= j < i && v[j].Some? && r.value == v[i].value - v[j].value
  {
    if v[i].None? then None
    else match PrevPresent(v, i)
      case None => None
      case Some(j) => Some(v[i].value - v[j].value)
  }

  /** Row `t` holds a present value below the previous present value. */
  predicate DecreaseAt(v: Column, t: nat)
  {
    t < |v| && GapFreeDiff(v, t).Some? && GapFreeDiff(v, t).value < 0.0
  }

  predicate HasDecrease(v: Column)
  {
    exists t :: 0 <= t < |v| && DecreaseAt(v, t)
  }

  predicate HasZero(v: Column)
  {
    exists i :: 0 <= i < |v| && v[i] == Some(0.0)
  }

  /** Time between a present value and the previous present value. */
  function GapBefore(dates: seq<int>, v: Column, i: nat): (r: Option<int>)
    requires |dates| == |v| && i < |v|
    ensures r.Some? <==> GapFreeDiff(v, i).Some?
  {
    if v[i].None? then None
    else match PrevPresent(v, i)
      case None => None
      case Some(j) => Some(dates[i] - dates[j])
  }

  predicate GapsWithin(dates: seq<int>, v: Column, maxGap: int)
    requires |dates| == |v|
  {
    forall i :: 0 <= i < |v| && GapBefore(dates, v, i).Some? ==> GapBefore(dates, v, i).value <= maxGap
  }

  /** The row of the first present value. */
  function FirstPresent(v: Column): (r: Option<nat>)
    ensures r.Some? ==> r.value < |v| && v[r.value].Some? && forall j :: 0 <= j < r.value ==> v[j].None?
    ensures r.None? ==> forall j :: 0 <= j < |v| ==> v[j].None?
  {
    if v == [] then None
    else if v[0].Some? then Some(0)
    else match FirstPresent(v[1..])
      case None => None
      case Some(j) => Some(j + 1)
  }

  /** Rows that hold a value once missing values are carried forward. */
  function Covered(v: Column): (n: nat)
    ensures n <= |v|
    ensures n == 0 <==> forall j :: 0 <= j < |v| ==> v[j].None?
  {
    match FirstPresent(v)
    case None => 0
    case Some(j) => |v| - j
  }

  /**
   * The coverage check: an empty household divides zero by zero, which gives
   * NaN, and a NaN share is never below the threshold.
   */
  predicate EnoughValues(v: Column, available: real)
  {
    |v| == 0 || (Covered(v) as real) / (|v| as real) >= available
  }

  datatype CumulativeReport = CumulativeReport(
    columnFound: bool,
    maxDeltaAllowed: bool,
    noNegativeDiff: bool,
    noUnexpectedZero: bool,
    enoughValues: bool)
  {
    predicate AllPassed()
    {
      columnFound && maxDeltaAllowed && noNegativeDiff && noUnexpectedZero && enoughValues
    }
  }

  /** The verdict of the checks on one listed column. */
  function ColumnReport(g: Group, c: string, maxGap: int, available: real): CumulativeReport
    requires WellFormed(g)
  {
    if c in g.columns then
      var v := g.columns[c];
      CumulativeReport(true, GapsWithin(g.dates, v, maxGap), !HasDecrease(v),
                       !(HasDecrease(v) && HasZero(v)), EnoughValues(v, available))
    else CumulativeReport(false, true, true, true, true)
  }

  function Both(a: CumulativeReport, b: CumulativeReport): CumulativeReport
  {
    CumulativeReport(a.columnFound && b.columnFound, a.maxDeltaAllowed && b.maxDeltaAllowed,
                     a.noNegativeDiff && b.noNegativeDiff, a.noUnexpectedZero && b.noUnexpectedZero,
                     a.enoughValues && b.enoughValues)
  }

  /** What the validation reports after looking at the listed columns in order. */
  function ReportOf(g: Group, cumCols: seq<string>, maxGap: int, available: real): CumulativeReport
    requires WellFormed(g)
    decreases |cumCols|
  {
    if cumCols == [] then CumulativeReport(true, true, true, true, true)
    else Both(ReportOf(g, cumCols[..|cumCols| - 1], maxGap, available),
              ColumnReport(g, cumCols[|cumCols| - 1], maxGap, available))
  }

  /**
   * Every flag starts true and is false exactly when some listed cumulative
   * column fails the check it stands for.
   */
  lemma {:induction false} ReportMeaning(g: Group, cumCols: seq<string>, maxGap: int, available: real)
    requires WellFormed(g)
    ensures var r := ReportOf(g, cumCols, maxGap, available);
      && (r.columnFound <==> forall c :: c in cumCols ==> c in g.columns)
      && (r.maxDeltaAllowed <==>
            forall c :: c in cumCols && c in g.columns ==> GapsWithin(g.dates, g.columns[c], maxGap))
      && (r.noNegativeDiff <==> forall c :: c in cumCols && c in g.columns ==> !HasDecrease(g.columns[c]))
      && (r.noUnexpectedZero <==>
            forall c :: c in cumCols && c in g.columns ==> !(HasDecrease(g.columns[c]) && HasZero(g.columns[c])))
      && (r.enoughValues <==>
            forall c :: c in cumCols && c in g.columns ==> EnoughValues(g.columns[c], available))
    decreases |cumCols|
  {
    if cumCols != [] {
      var n := |cumCols| - 1;
      ReportMeaning(g, cumCols[..n], maxGap, available);
      assert cumCols == cumCols[..n] + [cumCols[n]];
    }
  }

  /**
   * `validate_cumulative_variables`: one pass over the cumulative columns,
   * clearing a flag whenever a column fails its check. The zero check only
   * runs on a column that decreases somewhere.
   */
  method ValidateCumulativeVariables(g: Group, cumCols: seq<string>, maxGap: int, available: real)
    returns (r: CumulativeReport)
    requires WellFormed(g)
    ensures r == ReportOf(g, cumCols, maxGap, available)
  {
    r := CumulativeReport(true, true, true, true, true);
    var k := 0;
    while k < |cumCols|
      invariant 0 <= k <= |cumCols|
      invariant r == ReportOf(g, cumCols[..k], maxGap, available)
    {
      ghost var before := r;
      var c := cumCols[k];
      if c in g.columns {
        var v := g.columns[c];
        if !GapsWithin(g.dates, v, maxGap) {
          r := r.(maxDeltaAllowed := false);
        }
        if HasDecrease(v) {
          r := r.(noNegativeDiff := false);
          if HasZero(v) {
            r := r.(noUnexpectedZero := false);
          }
        }
        if !EnoughValues(v, available) {
          r := r.(enoughValues := false);
        }
      } else {
        r := r.(columnFound := false);
      }
      assert r == Both(before, ColumnReport(g, c, maxGap, available));
      assert cumCols[..k + 1][..k] == cumCols[..k];
      k := k + 1;
    }
    assert cumCols[..k] == cumCols;
  }

  /** A zero reading alone is not flagged; only a zero in a column that also decreases. */
  lemma ZeroWithoutDecreaseIsAccepted()
    ensures ReportOf(Group([0, 300], map["E" := [Some(0.0), Some(5.0)]]), ["E"], 3600, 0.9).noUnexpectedZero
  {
    var v: Column := [Some(0.0), Some(5.0)];
    assert GapFreeDiff(v, 1) == Some(5.0);
    assert !DecreaseAt(v, 0) && !DecreaseAt(v, 1);
  }
}
