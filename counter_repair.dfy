/*
 * Derivation of the per-interval `<col>Diff` columns of the cumulative meter
 * readings and the repair of decreasing readings (`add_diff_columns` /
 * `calculate_diff` in etdmap/mapping_helpers.py).
 *
 * The repair selects the rows it blanks by their reading date, as the source
 * does. With unique reading dates in increasing order every selection is a
 * range of rows; `BlankEnd` and `Repaired` describe that case by index and
 * `RepairedOnUniqueDates` connects the two descriptions.
 *
 * A missing reading behaves as NumPy's NaN: a comparison with it is false.
 */
module CounterRepair {
  import opened Basics
  import opened CounterChecks

  /**
   * The `Diff` column: 0 in the first row, otherwise the difference to the
   * row above, missing when either of the two values is missing.
   */
  function AdjacentDiff(v: Column): (d: Column)
    ensures |d| == |v|
    ensures |v| > 0 ==> d[0] == Some(0.0)
    ensures forall i :: 0 < i < |v| ==> (d[i].Some? <==> v[i - 1].Some? && v[i].Some?)
    ensures forall i :: 0 < i < |v| && d[i].Some? ==> v[i - 1].value + d[i].value == v[i].value
  {
    seq(|v|, i requires 0 <= i < |v| =>
      if i == 0 then Some(0.0)
      else if v[i - 1].Some? && v[i].Some? then Some(v[i].value - v[i - 1].value)
      else None)
  }

  predicate NoNegative(d: Column)
  {
    forall i :: 0 <= i < |d| ==> !(d[i].Some? && d[i].value < 0.0)
  }

  /** A row that the repair looks for after row `t`: present, and not a zero step. */
  predicate Changes(v: Column, k: nat)
    requires k < |v|
  {
    v[k].Some? && GapFreeDiff(v, k) != Some(0.0)
  }

  /** The first row from `j` on that changes (the source's `next_value_row`). */
  function NextChangeFrom(v: Column, j: nat): (r: Option<nat>)
    requires j <= |v|
    ensures r.Some? ==> j <= r.value < |v| && Changes(v, r.value)
    ensures r.Some? ==> forall k :: j <= k < r.value ==> !Changes(v, k)
    ensures r.None? ==> forall k :: j <= k < |v| ==> !Changes(v, k)
    decreases |v| - j
  {
    if j == |v| then None
    else if Changes(v, j) then Some(j)
    else NextChangeFrom(v, j + 1)
  }

  /** The next change after a decrease at row `t` makes up for the drop, or is itself a drop. */
  predicate EndsAtNextChange(v: Column, t: nat, j: nat)
    requires DecreaseAt(v, t) && t < j < |v| && v[j].Some?
  {
    assert v[t].Some?;
    var gap := GapFreeDiff(v, t).value;
    var next := GapFreeDiff(v, j).value;
    next >= -gap || next < 0.0
  }

  /**
   * Where the blanking that starts at a decrease in row `t` stops (exclusive),
   * for unique increasing reading dates. With no later change, everything
   * from `t` on goes. When the next change makes up for the drop, or is
   * itself a drop, the rows up to it go. Otherwise only row `t` goes, and only
   * if its original `Diff` is negative.
   */
  function BlankEnd(v: Column, t: nat): (e: nat)
    requires DecreaseAt(v, t)
    ensures t <= e <= |v|
    ensures NextChangeFrom(v, t + 1).None? ==> e == |v|
    ensures NextChangeFrom(v, t + 1).Some? && EndsAtNextChange(v, t, NextChangeFrom(v, t + 1).value) ==>
      e == NextChangeFrom(v, t + 1).value
    ensures NextChangeFrom(v, t + 1).Some? && !EndsAtNextChange(v, t, NextChangeFrom(v, t + 1).value) ==>
      (e == t + 1 <==> AdjacentDiff(v)[t].Some? && AdjacentDiff(v)[t].value < 0.0) && t <= e <= t + 1
  {
    match NextChangeFrom(v, t + 1)
    case None => |v|
    case Some(j) =>
      if EndsAtNextChange(v, t, j) then j
      else if AdjacentDiff(v)[t].Some? && AdjacentDiff(v)[t].value < 0.0 then t + 1
      else t
  }

  /** Row `i` is blanked by the repair that starts at some decrease at or before it. */
  predicate Blanked(v: Column, i: nat)
  {
    exists t :: 0 <= t <= i && DecreaseAt(v, t) && i < BlankEnd(v, t)
  }

  /** The column after the repair, for unique increasing reading dates: blanked rows become missing. */
  function Repaired(v: Column): (w: Column)
    ensures |w| == |v|
    ensures forall i :: 0 <= i < |v| ==> w[i] == v[i] || w[i].None?
    ensures forall i :: 0 <= i < |v| && (forall t :: 0 <= t <= i ==> !DecreaseAt(v, t)) ==> w[i] == v[i]
  {
    seq(|v|, i requires 0 <= i < |v| => if Blanked(v, i) then None else v[i])
  }

  // ---------------------------------------------------------------------
  // The repair keyed on reading dates

  /** The first row from `j` on that holds a value dated `d` (the row `gap` is read from). */
  function FirstPresentOn(dates: seq<int>, v: Column, d: int, j: nat): (r: Option<nat>)
    requires |dates| == |v| && j <= |v|
    ensures r.Some? ==> j <= r.value < |v| && v[r.value].Some? && dates[r.value] == d
    ensures r.Some? ==> forall k :: j <= k < r.value ==> !(v[k].Some? && dates[k] == d)
    ensures r.None? ==> forall k :: j <= k < |v| ==> !(v[k].Some? && dates[k] == d)
    decreases |v| - j
  {
    if j == |v| then None
    else if v[j].Some? && dates[j] == d then Some(j)
    else FirstPresentOn(dates, v, d, j + 1)
  }

  /** The first row from `j` on dated `d`, present or not. */
  function FirstOn(dates: seq<int>, d: int, j: nat): (r: Option<nat>)
    requires j <= |dates|
    ensures r.Some? ==> j <= r.value < |dates| && dates[r.value] == d
    ensures r.Some? ==> forall k :: j <= k < r.value ==> dates[k] != d
    ensures r.None? ==> forall k :: j <= k < |dates| ==> dates[k] != d
    decreases |dates| - j
  {
    if j == |dates| then None
    else if dates[j] == d then Some(j)
    else FirstOn(dates, d, j + 1)
  }

  /** The first row from `j` on dated after `d` that changes (`next_value_row`). */
  function NextChangeAfter(dates: seq<int>, v: Column, d: int, j: nat): (r: Option<nat>)
    requires |dates| == |v| && j <= |v|
    ensures r.Some? ==> j <= r.value < |v| && dates[r.value] > d && Changes(v, r.value)
    ensures r.Some? ==> forall k :: j <= k < r.value ==> !(dates[k] > d && Changes(v, k))
    ensures r.None? ==> forall k :: j <= k < |v| ==> !(dates[k] > d && Changes(v, k))
    decreases |v| - j
  {
    if j == |v| then None
    else if dates[j] > d && Changes(v, j) then Some(j)
    else NextChangeAfter(dates, v, d, j + 1)
  }

  /** The rows one decrease makes the repair blank, by their reading date. */
  datatype Blanking =
    | FromDate(rd: int)                 // no later change: every row dated from `rd` on
    | Between(rd: int, until: int)      // rows dated from `rd` up to the next change's date
    | OnDate(rd: int)                   // the rows dated `rd`
    | NoRows                            // the `Diff` at `rd` is not negative: nothing

  predicate Hits(b: Blanking, date: int)
  {
    match b
    case FromDate(rd) => rd <= date
    case Between(rd, until) => rd <= date < until
    case OnDate(rd) => date == rd
    case NoRows => false
  }

  /**
   * The decision the repair takes for the decrease at row `t`, read from the
   * column before the repair: `gap` is the gap-free step of the first present
   * row dated `rd`, the branch-3 test reads the original `Diff` of the first
   * row dated `rd`, and a missing step compares false.
   */
  function Decision(dates: seq<int>, v: Column, t: nat): (b: Blanking)
    requires |dates| == |v| && DecreaseAt(v, t)
    ensures b.NoRows? || b.rd == dates[t]
    ensures NextChangeAfter(dates, v, dates[t], 0).None? <==> b.FromDate?
    ensures b.Between? ==> b.until == dates[NextChangeAfter(dates, v, dates[t], 0).value]
  {
    var rd := dates[t];
    match NextChangeAfter(dates, v, rd, 0)
    case None => FromDate(rd)
    case Some(j) =>
      var gap := GapFreeDiff(v, FirstPresentOn(dates, v, rd, 0).value);
      var next := GapFreeDiff(v, j);
      if (gap.Some? && next.Some? && next.value >= -gap.value) || (next.Some? && next.value < 0.0) then
        Between(rd, dates[j])
      else
        var first := FirstOn(dates, rd, 0).value;
        if AdjacentDiff(v)[first].Some? && AdjacentDiff(v)[first].value < 0.0 then OnDate(rd) else NoRows
  }

  /** The repair started by a decrease at row `t` blanks row `i`. */
  predicate CoversOn(dates: seq<int>, v: Column, t: nat, i: nat)
    requires |dates| == |v|
  {
    DecreaseAt(v, t) && i < |v| && Hits(Decision(dates, v, t), dates[i])
  }

  predicate BlankedOn(dates: seq<int>, v: Column, i: nat)
    requires |dates| == |v|
  {
    exists t :: 0 <= t < |v| && CoversOn(dates, v, t, i)
  }

  /**
   * The column after the repair: every row some decrease's decision selects
   * becomes missing, the others keep their value. Rows dated before every
   * decrease are untouched.
   */
  function RepairedOn(dates: seq<int>, v: Column): (w: Column)
    requires |dates| == |v|
    ensures |w| == |v|
    ensures forall i :: 0 <= i < |v| ==> w[i] == v[i] || w[i].None?
    ensures forall i :: 0 <= i < |v| && w[i] != v[i] ==> exists t :: 0 <= t < |v| && DecreaseAt(v, t) && dates[t] <= dates[i]
  {
    seq(|v|, i requires 0 <= i < |v| => if BlankedOn(dates, v, i) then None else v[i])
  }

  /** The rows at which a present value is below the previous present value. */
  function DecreaseRows(v: Column, j: nat): (r: seq<nat>)
    requires j <= |v|
    ensures forall t :: t in r <==> j <= t < |v| && DecreaseAt(v, t)
    decreases |v| - j
  {
    if j == |v| then []
    else (if DecreaseAt(v, j) then [j] else []) + DecreaseRows(v, j + 1)
  }

  /** Row `i` is blanked by one of the first `n` decreases listed in `ts`. */
  predicate BlankedBy(dates: seq<int>, v: Column, ts: seq<nat>, n: nat, i: nat)
    requires |dates| == |v| && n <= |ts|
  {
    exists m :: 0 <= m < n && CoversOn(dates, v, ts[m], i)
  }

  /**
   * The repair loop on one column, in place, over the reading dates of the
   * decreases. Every decision is taken from the column as it was before the
   * loop, as the source takes them from `filtered_group` and from the first
   * `Diff` column.
   */
  method RepairColumn(dates: seq<int>, col: array<Option<real>>)
    requires |dates| == col.Length
    modifies col
    ensures col[..] == RepairedOn(dates, old(col[..]))
  {
    var v := col[..];
    var rows := DecreaseRows(v, 0);
    var k := 0;
    while k < |rows|
      invariant 0 <= k <= |rows|
      invariant forall i :: 0 <= i < col.Length ==> col[i] == if BlankedBy(dates, v, rows, k, i) then None else v[i]
    {
      var t := rows[k];
      var b := Decision(dates, v, t);
      forall i | 0 <= i < col.Length && Hits(b, dates[i]) {
        col[i] := None;
      }
      BlankedByStep(dates, v, rows, k, k + 1);
      k := k + 1;
    }
    BlankedByAllRows(dates, v, rows);
  }

  lemma BlankedByStep(dates: seq<int>, v: Column, ts: seq<nat>, k: nat, n: nat)
    requires |dates| == |v| && n == k + 1 && n <= |ts|
    ensures forall i: nat :: BlankedBy(dates, v, ts, n, i) <==> BlankedBy(dates, v, ts, k, i) || CoversOn(dates, v, ts[k], i)
  {
    forall i: nat
      ensures BlankedBy(dates, v, ts, n, i) <==> BlankedBy(dates, v, ts, k, i) || CoversOn(dates, v, ts[k], i)
    {
      BlankedByStepAt(dates, v, ts, k, i);
    }
  }

  /** One more decrease blanks what the earlier ones did and what its own decision selects. */
  lemma BlankedByStepAt(dates: seq<int>, v: Column, ts: seq<nat>, k: nat, i: nat)
    requires |dates| == |v| && k < |ts|
    ensures BlankedBy(dates, v, ts, k + 1, i) <==> BlankedBy(dates, v, ts, k, i) || CoversOn(dates, v, ts[k], i)
  {
    if BlankedBy(dates, v, ts, k + 1, i) {
      var m :| 0 <= m < k + 1 && CoversOn(dates, v, ts[m], i);
      if m < k {
        assert BlankedBy(dates, v, ts, k, i);
      }
    }
    if BlankedBy(dates, v, ts, k, i) {
      var m :| 0 <= m < k && CoversOn(dates, v, ts[m], i);
      assert 0 <= m < k + 1;
    }
    if CoversOn(dates, v, ts[k], i) {
      assert 0 <= k < k + 1;
    }
  }

  lemma BlankedByAllRows(dates: seq<int>, v: Column, rows: seq<nat>)
    requires |dates| == |v|
    requires forall t: nat :: t in rows <==> t < |v| && DecreaseAt(v, t)
    ensures forall i :: 0 <= i < |v| ==> (BlankedBy(dates, v, rows, |rows|, i) <==> BlankedOn(dates, v, i))
  {
    forall i | 0 <= i < |v| && BlankedOn(dates, v, i)
      ensures BlankedBy(dates, v, rows, |rows|, i)
    {
      var t :| 0 <= t < |v| && CoversOn(dates, v, t, i);
      assert t in rows;
      var m :| 0 <= m < |rows| && rows[m] == t;
    }
  }

  /** The repair started by a decrease at row `t` blanks row `i`, for unique increasing dates. */
  predicate Covers(v: Column, t: nat, i: nat)
  {
    DecreaseAt(v, t) && t <= i < BlankEnd(v, t)
  }

  /** With unique increasing dates, the first later row dated after `dates[t]` that changes is the first later row that changes. */
  lemma NextChangeAfterIsNextChange(dates: seq<int>, v: Column, t: nat)
    requires |dates| == |v| && StrictlyIncreasing(dates) && t < |v|
    ensures NextChangeAfter(dates, v, dates[t], 0) == NextChangeFrom(v, t + 1)
  {
    forall k | 0 <= k <= t
      ensures !(dates[k] > dates[t])
    {
      if k < t {
        assert dates[k] < dates[t];
      }
    }
    forall k | t < k < |v|
      ensures dates[k] > dates[t]
    {
    }
  }

  /** With unique increasing dates, the rows the decision selects are the index range `[t, BlankEnd(v, t))`. */
  lemma CoversOnUniqueDates(dates: seq<int>, v: Column, t: nat, i: nat)
    requires |dates| == |v| && StrictlyIncreasing(dates) && i < |v|
    ensures CoversOn(dates, v, t, i) <==> Covers(v, t, i)
  {
    if DecreaseAt(v, t) {
      var rd := dates[t];
      forall k | 0 <= k < |v|
        ensures dates[k] == rd ==> k == t
      {
        if k < t {
          assert dates[k] < dates[t];
        } else if k > t {
          assert dates[t] < dates[k];
        }
      }
      assert v[t].Some?;
      assert FirstPresentOn(dates, v, rd, 0) == Some(t);
      assert FirstOn(dates, rd, 0) == Some(t);
      NextChangeAfterIsNextChange(dates, v, t);
      assert rd <= dates[i] <==> t <= i by {
        if t < i {
          assert dates[t] < dates[i];
        } else if i < t {
          assert dates[i] < dates[t];
        }
      }
      assert dates[i] == rd <==> i == t by {
        if t < i {
          assert dates[t] < dates[i];
        } else if i < t {
          assert dates[i] < dates[t];
        }
      }
      match NextChangeFrom(v, t + 1)
      case None =>
      case Some(j) =>
        assert dates[i] < dates[j] <==> i < j by {
          if i < j {
            assert dates[i] < dates[j];
          } else if j < i {
            assert dates[j] < dates[i];
          }
        }
    }
  }

  /** With unique increasing dates, the date-keyed repair is the index-keyed one. */
  lemma RepairedOnUniqueDates(dates: seq<int>, v: Column)
    requires |dates| == |v| && StrictlyIncreasing(dates)
    ensures RepairedOn(dates, v) == Repaired(v)
  {
    forall i | 0 <= i < |v|
      ensures BlankedOn(dates, v, i) <==> Blanked(v, i)
    {
      if BlankedOn(dates, v, i) {
        var t :| 0 <= t < |v| && CoversOn(dates, v, t, i);
        CoversOnUniqueDates(dates, v, t, i);
      }
      if Blanked(v, i) {
        var t :| 0 <= t <= i && DecreaseAt(v, t) && i < BlankEnd(v, t);
        CoversOnUniqueDates(dates, v, t, i);
      }
    }
  }

  lemma BlankEndCoversDrop(v: Column, t: nat)
    requires DecreaseAt(v, t) && t > 0 && v[t - 1].Some?
    ensures BlankEnd(v, t) > t
  {
    assert PrevPresent(v, t) == Some(t - 1);
  }

  /** A drop right after a present reading is blanked by the repair. */
  lemma DropAfterReadingBlanked(v: Column, t: nat)
    requires 0 < t < |v| && v[t - 1].Some?
    ensures DecreaseAt(v, t) ==> Blanked(v, t)
  {
    if DecreaseAt(v, t) {
      BlankEndCoversDrop(v, t);
    }
  }

  /**
   * After the repair no `Diff` is negative: a negative step between two
   * values the repair kept was a decrease in the original column, and every
   * branch of the repair blanks the row of such a decrease.
   */
  lemma {:induction false} RepairLeavesNoNegativeDiff(v: Column)
    ensures NoNegative(AdjacentDiff(Repaired(v)))
  {
    var w := Repaired(v);
    var d := AdjacentDiff(w);
    forall i | 0 <= i < |d|
      ensures !(d[i].Some? && d[i].value < 0.0)
    {
      if i > 0 && w[i - 1].Some? && w[i].Some? {
        assert w[i - 1] == v[i - 1] && w[i] == v[i];
        assert PrevPresent(v, i) == Some(i - 1);
        DropAfterReadingBlanked(v, i);
      }
    }
  }

  /** A column that never decreases has no negative `Diff`. */
  lemma {:induction false} NoDecreaseNoNegativeDiff(v: Column)
    requires !HasDecrease(v)
    ensures NoNegative(AdjacentDiff(v))
  {
    var d := AdjacentDiff(v);
    forall i | 0 <= i < |d|
      ensures !(d[i].Some? && d[i].value < 0.0)
    {
      if i > 0 && d[i].Some? {
        assert PrevPresent(v, i) == Some(i - 1);
        assert !DecreaseAt(v, i);
      }
    }
  }

  /** A column that never decreases is left as it is. */
  lemma {:induction false} RepairKeepsCleanColumn(v: Column)
    requires !HasDecrease(v)
    ensures Repaired(v) == v
  {
    forall i | 0 <= i < |v|
      ensures Repaired(v)[i] == v[i]
    {
      assert forall t :: 0 <= t <= i ==> !DecreaseAt(v, t);
    }
  }

  /** Every column has one entry per reading date. */
  predicate Fits(dates: seq<int>, cols: map<string, Column>)
  {
    forall c :: c in cols ==> |cols[c]| == |dates|
  }

  /** One step of the loop over the cumulative columns. */
  function DiffStep(dates: seq<int>, cols: map<string, Column>, c: string, repair: bool): (r: map<string, Column>)
    requires Fits(dates, cols)
    ensures Fits(dates, r)
  {
    if c in cols then
      var w := if repair then RepairedOn(dates, cols[c]) else cols[c];
      cols[c := w][c + "Diff" := AdjacentDiff(w)]
    else cols
  }

  /** The columns after the loop over the listed cumulative columns. */
  function WithDiffs(dates: seq<int>, cols: map<string, Column>, cs: seq<string>, repair: bool): (r: map<string, Column>)
    requires Fits(dates, cols)
    ensures Fits(dates, r)
    decreases |cs|
  {
    if cs == [] then cols
    else DiffStep(dates, WithDiffs(dates, cols, cs[..|cs| - 1], repair), cs[|cs| - 1], repair)
  }

  /**
   * `calculate_diff` on one household: validate, drop the household when asked
   * to and it failed, otherwise add a `Diff` column per cumulative column,
   * repairing decreases first when any column decreases. Writing the first
   * `Diff` of an empty household raises.
   */
  method CalculateDiff(g: Group, cumCols: seq<string>, maxGap: int, available: real, dropUnvalidated: bool)
    returns (r: Result<Group>)
    requires WellFormed(g)
    ensures var report := ReportOf(g, cumCols, maxGap, available);
      if dropUnvalidated && !report.AllPassed() then r == Success(Group([], map[]))
      else if |g.dates| == 0 && (exists c :: c in cumCols && c in g.columns) then r == Failure(IndexError)
      else r == Success(Group(g.dates, WithDiffs(g.dates, g.columns, cumCols, !report.noNegativeDiff)))
  {
    var report := ValidateCumulativeVariables(g, cumCols, maxGap, available);
    if !report.AllPassed() && dropUnvalidated {
      return Success(Group([], map[]));
    }
    var repair := !report.noNegativeDiff;
    var cols := g.columns;
    var k := 0;
    while k < |cumCols|
      invariant 0 <= k <= |cumCols|
      invariant Fits(g.dates, cols)
      invariant cols == WithDiffs(g.dates, g.columns, cumCols[..k], repair)
      invariant |g.dates| == 0 ==> cols == g.columns && forall m :: 0 <= m < k ==> cumCols[m] !in g.columns
    {
      var c := cumCols[k];
      assert cumCols[..k + 1][..k] == cumCols[..k];
      if c in cols {
        if |g.dates| == 0 {
          return Failure(IndexError);
        }
        var w := cols[c];
        var diff := AdjacentDiff(w);
        if repair {
          var a := new Option<real>[|w|](i requires 0 <= i < |w| => w[i]);
          assert a[..] == w;
          RepairColumn(g.dates, a);
          w := a[..];
          diff := AdjacentDiff(w);
        }
        cols := cols[c := w][c + "Diff" := diff];
      }
      k := k + 1;
    }
    assert cumCols[..k] == cumCols;
    return Success(Group(g.dates, cols));
  }

  /** No listed column is named like the `Diff` column of another listed column. */
  predicate NoDiffNameClash(cs: seq<string>)
  {
    forall c, d :: c in cs && d in cs ==> c + "Diff" != d
  }

  lemma SuffixCancels(a: string, b: string, s: string)
    requires a + s == b + s
    ensures a == b
  {
    assert |a| == |b|;
    assert a == (a + s)[..|a|];
  }

  lemma {:induction false} WithDiffsKeepsKeys(dates: seq<int>, cols: map<string, Column>, cs: seq<string>, repair: bool)
    requires Fits(dates, cols)
    ensures cols.Keys <= WithDiffs(dates, cols, cs, repair).Keys
    decreases |cs|
  {
    if cs != [] {
      WithDiffsKeepsKeys(dates, cols, cs[..|cs| - 1], repair);
    }
  }

  /** Without repair, listed columns keep their values. */
  lemma {:induction false} WithDiffsWithoutRepair(dates: seq<int>, cols: map<string, Column>, cs: seq<string>, c: string)
    requires Fits(dates, cols) && NoDiffNameClash(cs) && c in cs && c in cols
    ensures c in WithDiffs(dates, cols, cs, false) && WithDiffs(dates, cols, cs, false)[c] == cols[c]
    decreases |cs|
  {
    WithDiffsKeepsKeys(dates, cols, cs, false);
    if cs != [] {
      var n := |cs| - 1;
      var prev := cs[..n];
      WithDiffsKeepsKeys(dates, cols, prev, false);
      assert forall x :: x in prev ==> x in cs;
      if c in prev {
        WithDiffsWithoutRepair(dates, cols, prev, c);
      } else {
        assert WithDiffs(dates, cols, prev, false)[c] == cols[c] by {
          WithDiffsOutside(dates, cols, prev, false, c);
        }
      }
      assert cs[n] in cs;
      assert c + "Diff" != cs[n] && cs[n] + "Diff" != c;
    }
  }

  /** A column that is neither listed nor the `Diff` of a listed column is untouched. */
  lemma {:induction false} WithDiffsOutside(dates: seq<int>, cols: map<string, Column>, cs: seq<string>, repair: bool, k: string)
    requires Fits(dates, cols) && k in cols && k !in cs && forall d :: d in cs ==> d + "Diff" != k
    ensures k in WithDiffs(dates, cols, cs, repair) && WithDiffs(dates, cols, cs, repair)[k] == cols[k]
    decreases |cs|
  {
    if cs != [] {
      var n := |cs| - 1;
      assert forall x :: x in cs[..n] ==> x in cs;
      WithDiffsOutside(dates, cols, cs[..n], repair, k);
      assert cs[n] in cs;
    }
  }

  /**
   * Every listed cumulative column that the household has ends up with a
   * `Diff` column free of negative steps when the reading dates are unique:
   * repaired columns by `RepairLeavesNoNegativeDiff`, and without repair
   * because no column decreases.
   */
  lemma {:induction false} WithDiffsNoNegative(dates: seq<int>, cols: map<string, Column>, cs: seq<string>, repair: bool)
    requires Fits(dates, cols) && NoDiffNameClash(cs)
    requires repair ==> StrictlyIncreasing(dates)
    requires !repair ==> forall c :: c in cs && c in cols ==> !HasDecrease(cols[c])
    ensures forall c :: c in cs && c in cols ==>
      c + "Diff" in WithDiffs(dates, cols, cs, repair) && NoNegative(WithDiffs(dates, cols, cs, repair)[c + "Diff"])
    decreases |cs|
  {
    if cs != [] {
      var n := |cs| - 1;
      var prev := cs[..n];
      var before := WithDiffs(dates, cols, prev, repair);
      assert forall x :: x in prev ==> x in cs;
      WithDiffsNoNegative(dates, cols, prev, repair);
      WithDiffsKeepsKeys(dates, cols, prev, repair);
      var last := cs[n];
      forall c | c in cs && c in cols
        ensures c + "Diff" in WithDiffs(dates, cols, cs, repair) && NoNegative(WithDiffs(dates, cols, cs, repair)[c + "Diff"])
      {
        if c == last {
          if repair {
            RepairedOnUniqueDates(dates, before[c]);
            RepairLeavesNoNegativeDiff(before[c]);
          } else {
            WithDiffsWithoutRepair(dates, cols, cs, c);
            if c in prev {
              WithDiffsWithoutRepair(dates, cols, prev, c);
            } else {
              WithDiffsOutside(dates, cols, prev, repair, c);
            }
            NoDecreaseNoNegativeDiff(cols[c]);
          }
        } else {
          assert c in prev;
          assert last in cs;
          assert last != c + "Diff";
          if last + "Diff" == c + "Diff" {
            SuffixCancels(last, c, "Diff");
          }
        }
      }
    }
  }

  /**
   * `calculate_diff` never leaves a negative `Diff` in a cumulative column it
   * processed, provided the household's reading dates are unique
   * (`RepeatedDateLeavesDrop` shows that this condition is needed).
   */
  lemma ProcessedDiffsNeverNegative(g: Group, cumCols: seq<string>, maxGap: int, available: real)
    requires WellFormed(g) && NoDiffNameClash(cumCols) && StrictlyIncreasing(g.dates)
    ensures var cols := WithDiffs(g.dates, g.columns, cumCols, !ReportOf(g, cumCols, maxGap, available).noNegativeDiff);
      forall c :: c in cumCols && c in g.columns ==> c + "Diff" in cols && NoNegative(cols[c + "Diff"])
  {
    ReportMeaning(g, cumCols, maxGap, available);
    WithDiffsNoNegative(g.dates, g.columns, cumCols, !ReportOf(g, cumCols, maxGap, available).noNegativeDiff);
  }

  /** The only drop of the repeated-date example, and the decision taken for it. */
  lemma WholeDateDecision()
    ensures var v: Column := [Some(100.0), Some(200.0), Some(150.0), Some(250.0)];
      && (forall t :: 0 <= t < |v| ==> (DecreaseAt(v, t) <==> t == 2))
      && Decision([0, 300, 300, 600], v, 2) == Between(300, 600)
  {
    var dates := [0, 300, 300, 600];
    var v: Column := [Some(100.0), Some(200.0), Some(150.0), Some(250.0)];
    assert PrevPresent(v, 1) == Some(0);
    assert PrevPresent(v, 2) == Some(1);
    assert PrevPresent(v, 3) == Some(2);
    assert !DecreaseAt(v, 0) && !DecreaseAt(v, 1) && DecreaseAt(v, 2) && !DecreaseAt(v, 3);
    assert FirstPresentOn(dates, v, 300, 0) == Some(1);
    assert NextChangeAfter(dates, v, 300, 0) == Some(3);
  }

  /**
   * With a repeated reading date the repair blanks every row of that date:
   * the drop to 150 is dated 300 like the reading 200 before it, so both go.
   */
  lemma RepairBlanksWholeDate()
    ensures RepairedOn([0, 300, 300, 600], [Some(100.0), Some(200.0), Some(150.0), Some(250.0)])
      == [Some(100.0), None, None, Some(250.0)]
  {
    var dates := [0, 300, 300, 600];
    var v: Column := [Some(100.0), Some(200.0), Some(150.0), Some(250.0)];
    WholeDateDecision();
    forall i | 0 <= i < |v|
      ensures BlankedOn(dates, v, i) <==> i == 1 || i == 2
    {
      if i == 1 || i == 2 {
        assert CoversOn(dates, v, 2, i);
      } else {
        assert forall t :: 0 <= t < |v| ==> !CoversOn(dates, v, t, i);
      }
    }
  }

  /**
   * With a repeated reading date a negative `Diff` can survive the repair:
   * both drops are dated 200, the decision for that date reads the missing
   * `Diff` of the first row dated 200, and so no row is blanked.
   */
  lemma RepeatedDateLeavesDrop()
    ensures var v: Column := [Some(100.0), None, Some(90.0), Some(80.0), Some(85.0)];
      && RepairedOn([0, 100, 200, 200, 300], v) == v
      && AdjacentDiff(v)[3] == Some(-10.0)
  {
    var dates := [0, 100, 200, 200, 300];
    var v: Column := [Some(100.0), None, Some(90.0), Some(80.0), Some(85.0)];
    assert PrevPresent(v, 1) == Some(0);
    assert PrevPresent(v, 2) == Some(0);
    assert PrevPresent(v, 3) == Some(2);
    assert PrevPresent(v, 4) == Some(3);
    assert !DecreaseAt(v, 0) && !DecreaseAt(v, 1) && DecreaseAt(v, 2) && DecreaseAt(v, 3) && !DecreaseAt(v, 4);
    assert FirstPresentOn(dates, v, 200, 0) == Some(2);
    assert FirstOn(dates, 200, 0) == Some(2);
    assert NextChangeAfter(dates, v, 200, 0) == Some(4);
    assert Decision(dates, v, 2) == NoRows && Decision(dates, v, 3) == NoRows;
    forall i | 0 <= i < |v|
      ensures !BlankedOn(dates, v, i)
    {
      forall t | 0 <= t < |v|
        ensures !CoversOn(dates, v, t, i)
      {
        assert t == 2 || t == 3 || !DecreaseAt(v, t);
      }
    }
    assert RepairedOn(dates, v) == v;
  }

  /**
   * A drop that a later reading makes up for: only the dropped reading goes,
   * and the step after the gap has no `Diff` either.
   */
  lemma RepairOfMadeUpDrop()
    ensures var v: Column := [Some(0.0), Some(100.0), Some(200.0), Some(50.0), Some(250.0), Some(300.0)];
      && Repaired(v) == [Some(0.0), Some(100.0), Some(200.0), None, Some(250.0), Some(300.0)]
      && AdjacentDiff(Repaired(v)) == [Some(0.0), Some(100.0), Some(100.0), None, None, Some(50.0)]
  {
    var v: Column := [Some(0.0), Some(100.0), Some(200.0), Some(50.0), Some(250.0), Some(300.0)];
    assert PrevPresent(v, 0) == None;
    assert PrevPresent(v, 1) == Some(0);
    assert PrevPresent(v, 2) == Some(1);
    assert PrevPresent(v, 3) == Some(2);
    assert PrevPresent(v, 4) == Some(3);
    assert PrevPresent(v, 5) == Some(4);
    assert !DecreaseAt(v, 0) && !DecreaseAt(v, 1) && !DecreaseAt(v, 2);
    assert DecreaseAt(v, 3) && !DecreaseAt(v, 4) && !DecreaseAt(v, 5);
    assert NextChangeFrom(v, 4) == Some(4);
    assert BlankEnd(v, 3) == 4;
    var w := Repaired(v);
    assert !Blanked(v, 0) && !Blanked(v, 1) && !Blanked(v, 2);
    assert Blanked(v, 3);
    assert !Blanked(v, 4) && !Blanked(v, 5);
    assert w == [Some(0.0), Some(100.0), Some(200.0), None, Some(250.0), Some(300.0)];
  }

  /** The first repair of `[100,200,150,160]` removes the drop to 150 only. */
  lemma RepairOnceKeepsLaterReading()
    ensures Repaired([Some(100.0), Some(200.0), Some(150.0), Some(160.0)]) == [Some(100.0), Some(200.0), None, Some(160.0)]
  {
    var v: Column := [Some(100.0), Some(200.0), Some(150.0), Some(160.0)];
    assert PrevPresent(v, 1) == Some(0);
    assert PrevPresent(v, 2) == Some(1);
    assert PrevPresent(v, 3) == Some(2);
    assert !DecreaseAt(v, 0) && !DecreaseAt(v, 1) && DecreaseAt(v, 2) && !DecreaseAt(v, 3);
    assert NextChangeFrom(v, 3) == Some(3);
    assert BlankEnd(v, 2) == 3;
    assert !Blanked(v, 0) && !Blanked(v, 1) && Blanked(v, 2) && !Blanked(v, 3);
  }

  /** Repairing `[100,200,NA,160]` removes the tail that stays below 200. */
  lemma RepairOfBrokenTail()
    ensures Repaired([Some(100.0), Some(200.0), None, Some(160.0)]) == [Some(100.0), Some(200.0), None, None]
  {
    var w: Column := [Some(100.0), Some(200.0), None, Some(160.0)];
    assert PrevPresent(w, 1) == Some(0);
    assert PrevPresent(w, 2) == Some(1);
    assert PrevPresent(w, 3) == Some(1);
    assert !DecreaseAt(w, 0) && !DecreaseAt(w, 1) && !DecreaseAt(w, 2) && DecreaseAt(w, 3);
    assert NextChangeFrom(w, 4) == None;
    assert BlankEnd(w, 3) == 4;
    assert !Blanked(w, 0) && !Blanked(w, 1) && !Blanked(w, 2) && Blanked(w, 3);
  }

  /**
   * The repair is not idempotent: removing a single reading can leave a
   * gap-free drop behind, which a second pass then treats as a broken tail.
   */
  lemma RepairNotIdempotent()
    ensures var v: Column := [Some(100.0), Some(200.0), Some(150.0), Some(160.0)];
      && Repaired(v) == [Some(100.0), Some(200.0), None, Some(160.0)]
      && Repaired(Repaired(v)) == [Some(100.0), Some(200.0), None, None]
  {
    RepairOnceKeepsLaterReading();
    RepairOfBrokenTail();
  }
}
