/*
 * Putting one device's readings onto a clock grid (`align_timestamps` and
 * `interpolate_cumulative` in etdmap/mapping_clock_helpers.py). Times are
 * whole seconds; the readings of a device are in time order without
 * repeats.
 */
module TimestampAlignment {
  import opened Basics
  import ClockEstimation

  /** The readings of one column: times and the value read at each time. */
  datatype Readings = Readings(times: seq<int>, values: Column)
  {
    predicate Valid()
    {
      |times| == |values|
    }
  }

  predicate InWindow(x: int, t: int, tolerance: int)
  {
    t - tolerance <= x <= t + tolerance
  }

  /** The number of leading times below `bound`. */
  function CountBelow(xs: seq<int>, bound: int): (n: nat)
    requires StrictlyIncreasing(xs)
    ensures n <= |xs|
    ensures forall k :: 0 <= k < |xs| ==> (k < n <==> xs[k] < bound)
  {
    if xs == [] || xs[0] >= bound then 0 else 1 + CountBelow(xs[1..], bound)
  }

  /**
   * The readings at most `tolerance` seconds from `t`, bounds included: on
   * times in order they are the rows from `lo` up to `hi`.
   */
  function Window(xs: seq<int>, t: int, tolerance: int): (b: (nat, nat))
    requires StrictlyIncreasing(xs)
    ensures b.0 <= b.1 <= |xs|
    ensures forall k :: 0 <= k < |xs| ==> (b.0 <= k < b.1 <==> InWindow(xs[k], t, tolerance))
  {
    var lo := CountBelow(xs, t - tolerance);
    var hi := CountBelow(xs, t + tolerance + 1);
    (lo, if hi < lo then lo else hi)
  }

  /** The nearby readings, in their order. */
  function Nearby(r: Readings, t: int, tolerance: int): (w: Readings)
    requires r.Valid() && StrictlyIncreasing(r.times)
    ensures w.Valid() && StrictlyIncreasing(w.times)
  {
    var b := Window(r.times, t, tolerance);
    Readings(r.times[b.0..b.1], r.values[b.0..b.1])
  }

  predicate NonDecreasing(ys: seq<real>)
  {
    forall i, j :: 0 <= i < j < |ys| ==> ys[i] <= ys[j]
  }

  function Values(v: Column): (ys: seq<real>)
    requires AllPresent(v)
    ensures |ys| == |v| && forall i :: 0 <= i < |v| ==> v[i] == Some(ys[i])
  {
    seq(|v|, i requires 0 <= i < |v| => v[i].value)
  }

  /** Where `x` lies between `x0` and `x1`, as a share of the distance. */
  function Share(x: int, x0: int, x1: int): (a: real)
    requires x0 < x < x1
    ensures 0.0 < a < 1.0
  {
    (x - x0) as real / (x1 - x0) as real
  }

  /**
   * `np.interp(x, xs, ys)`: linear interpolation between the two readings
   * around `x`, and the first or last value outside their range.
   */
  function Interp(x: int, xs: seq<int>, ys: seq<real>): real
    requires |xs| == |ys| > 0 && StrictlyIncreasing(xs)
  {
    if |xs| == 1 || x <= xs[0] then ys[0]
    else if x < xs[1] then ys[0] + (ys[1] - ys[0]) * Share(x, xs[0], xs[1])
    else Interp(x, xs[1..], ys[1..])
  }

  lemma ScaledBetween(d: real, a: real)
    requires 0.0 <= d && 0.0 < a < 1.0
    ensures 0.0 <= d * a <= d
  {
  }

  /** Interpolating non-decreasing values stays between the first and the last. */
  lemma {:induction false} InterpBetween(x: int, xs: seq<int>, ys: seq<real>)
    requires |xs| == |ys| > 0 && StrictlyIncreasing(xs) && NonDecreasing(ys)
    ensures ys[0] <= Interp(x, xs, ys) <= ys[|ys| - 1]
  {
    if |xs| == 1 || x <= xs[0] {
    } else if x < xs[1] {
      ScaledBetween(ys[1] - ys[0], Share(x, xs[0], xs[1]));
    } else {
      InterpBetween(x, xs[1..], ys[1..]);
    }
  }

  /** Interpolating at the time of a reading gives that reading. */
  lemma {:induction false} InterpAtReading(xs: seq<int>, ys: seq<real>, k: nat)
    requires |xs| == |ys| > 0 && StrictlyIncreasing(xs) && k < |xs|
    ensures Interp(xs[k], xs, ys) == ys[k]
  {
    if k > 0 {
      InterpAtReading(xs[1..], ys[1..], k - 1);
    }
  }

  /**
   * The value `interpolate_cumulative` puts at target time `t`: none
   * without readings nearby, the reading itself when there is one, and the
   * interpolation when there are more, which must be present and not
   * decrease.
   */
  function InterpolateAt(r: Readings, t: int, tolerance: int): (v: Result<Option<real>>)
    requires r.Valid() && StrictlyIncreasing(r.times)
    ensures v.Failure? ==> v.error == ValueError
    ensures var w := Nearby(r, t, tolerance);
      v.Failure? <==> |w.times| >= 2 && !(AllPresent(w.values) && NonDecreasing(Values(w.values)))
    ensures (forall k :: 0 <= k < |r.times| ==> !InWindow(r.times[k], t, tolerance)) ==> v == Success(None)
  {
    var b := Window(r.times, t, tolerance);
    assert b.0 < b.1 ==> InWindow(r.times[b.0], t, tolerance);
    var w := Nearby(r, t, tolerance);
    assert |w.times| == b.1 - b.0;
    if |w.times| >= 2 then
      if AllPresent(w.values) && NonDecreasing(Values(w.values)) then
        Success(Some(Interp(t, w.times, Values(w.values))))
      else Failure(ValueError)
    else if |w.times| == 1 then Success(w.values[0])
    else Success(None)
  }

  /**
   * The value at `t` by the number of nearby readings: none gives NA, one
   * gives that reading, and more give their linear interpolation at `t`.
   */
  lemma InterpolateAtCases(r: Readings, t: int, tolerance: int)
    requires r.Valid() && StrictlyIncreasing(r.times)
    ensures var w := Nearby(r, t, tolerance);
      var v := InterpolateAt(r, t, tolerance);
      && (|w.times| == 0 <==> forall k :: 0 <= k < |r.times| ==> !InWindow(r.times[k], t, tolerance))
      && (|w.times| == 0 ==> v == Success(None))
      && (|w.times| == 1 ==> v == Success(w.values[0]))
      && (|w.times| >= 2 && v.Success? ==> AllPresent(w.values) && v.value == Some(Interp(t, w.times, Values(w.values))))
  {
    var b := Window(r.times, t, tolerance);
    assert b.0 < b.1 ==> InWindow(r.times[b.0], t, tolerance);
  }

  /**
   * An interpolated value lies between the first and the last nearby
   * reading, which are the least and the greatest of them.
   */
  lemma InterpolatedBetweenReadings(r: Readings, t: int, tolerance: int)
    requires r.Valid() && StrictlyIncreasing(r.times)
    requires |Nearby(r, t, tolerance).times| >= 2 && InterpolateAt(r, t, tolerance).Success?
    ensures var w := Nearby(r, t, tolerance);
      var v := InterpolateAt(r, t, tolerance).value;
      && v.Some? && AllPresent(w.values) && NonDecreasing(Values(w.values))
      && w.values[0].value <= v.value <= w.values[|w.values| - 1].value
  {
    var w := Nearby(r, t, tolerance);
    InterpBetween(t, w.times, Values(w.values));
  }

  /** A target time at which a reading was taken gets that reading, whenever interpolation succeeds. */
  lemma InterpolatedAtReading(r: Readings, tolerance: int, k: nat)
    requires r.Valid() && StrictlyIncreasing(r.times) && k < |r.times| && tolerance >= 0
    requires InterpolateAt(r, r.times[k], tolerance).Success?
    ensures InterpolateAt(r, r.times[k], tolerance).value == r.values[k]
  {
    var t := r.times[k];
    var b := Window(r.times, t, tolerance);
    assert InWindow(r.times[k], t, tolerance);
    var w := Nearby(r, t, tolerance);
    if |w.times| >= 2 {
      InterpAtReading(w.times, Values(w.values), k - b.0);
    }
  }

  /** Every target time of a column, stopping at the first that fails. */
  function InterpolatedColumn(r: Readings, targets: seq<int>, tolerance: int): (c: Result<Column>)
    requires r.Valid() && StrictlyIncreasing(r.times)
  {
    if exists j :: 0 <= j < |targets| && InterpolateAt(r, targets[j], tolerance).Failure? then Failure(ValueError)
    else Success(seq(|targets|, j requires 0 <= j < |targets| => InterpolateAt(r, targets[j], tolerance).value))
  }

  /** `interpolate_cumulative`: fills the value at each target time in turn. */
  method InterpolateCumulative(r: Readings, targets: seq<int>, tolerance: int) returns (c: Result<Column>)
    requires r.Valid() && StrictlyIncreasing(r.times)
    ensures c.Success? <==> forall j :: 0 <= j < |targets| ==> InterpolateAt(r, targets[j], tolerance).Success?
    ensures c.Failure? ==> c.error == ValueError
    ensures c.Success? ==> |c.value| == |targets|
    ensures c.Success? ==> forall j :: 0 <= j < |targets| ==> c.value[j] == InterpolateAt(r, targets[j], tolerance).value
  {
    var result: Column := [];
    var j := 0;
    while j < |targets|
      invariant 0 <= j <= |targets| && |result| == j
      invariant forall i :: 0 <= i < j ==> InterpolateAt(r, targets[i], tolerance).Success?
      invariant forall i :: 0 <= i < j ==> result[i] == InterpolateAt(r, targets[i], tolerance).value
    {
      var v := InterpolateAt(r, targets[j], tolerance);
      if v.Failure? {
        return Failure(ValueError);
      }
      result := result + [v.value];
      j := j + 1;
    }
    return Success(result);
  }

  /** The method computes the column `InterpolatedColumn` describes. */
  lemma InterpolateCumulativeIsColumn(r: Readings, targets: seq<int>, tolerance: int, j: nat)
    requires r.Valid() && StrictlyIncreasing(r.times) && j < |targets|
    requires InterpolatedColumn(r, targets, tolerance).Success?
    ensures InterpolatedColumn(r, targets, tolerance).value[j] == InterpolateAt(r, targets[j], tolerance).value
    ensures InterpolateAt(r, targets[j], tolerance).Success?
  {
  }

  /**
   * The index of the reading nearest to `t` among the first `n`; of two
   * equally near readings the later one, as a `nearest` reindex on a
   * sorted index chooses.
   */
  function NearestIndex(xs: seq<int>, t: int, n: nat): (j: nat)
    requires 0 < n <= |xs|
    ensures j < n
    ensures forall k :: 0 <= k < n ==> Dist(xs[j], t) <= Dist(xs[k], t)
    ensures forall k :: j < k < n ==> Dist(xs[j], t) < Dist(xs[k], t)
  {
    if n == 1 then 0
    else
      var b := NearestIndex(xs, t, n - 1);
      if Dist(xs[n - 1], t) <= Dist(xs[b], t) then n - 1 else b
  }

  /** `reindex(method='nearest', tolerance=...)`: the nearest reading if it is near enough. */
  function NearestWithin(r: Readings, t: int, tolerance: int): (v: Option<real>)
    requires r.Valid()
    ensures v.Some? ==> exists k :: 0 <= k < |r.times| && Dist(r.times[k], t) <= tolerance && r.values[k] == v
    ensures (forall k :: 0 <= k < |r.times| ==> Dist(r.times[k], t) > tolerance) ==> v.None?
  {
    if |r.times| == 0 then None
    else
      var j := NearestIndex(r.times, t, |r.times|);
      if Dist(r.times[j], t) <= tolerance then r.values[j] else None
  }

  /** The nearest reading is taken even when a farther one within tolerance exists. */
  lemma NearestWithinPicksNearest(r: Readings, t: int, tolerance: int, k: nat)
    requires r.Valid() && k < |r.times| && Dist(r.times[k], t) <= tolerance
    requires forall i :: 0 <= i < |r.times| && i != k ==> Dist(r.times[k], t) < Dist(r.times[i], t)
    ensures NearestWithin(r, t, tolerance) == r.values[k]
  {
    var j := NearestIndex(r.times, t, |r.times|);
    assert j == k;
  }

  /**
   * The `nearest` method: a time moves down to the grid tick before it when
   * it lies at most half a period past it, otherwise up to the next tick.
   */
  function Snap(t: int, start: int, freq: int): (s: int)
    requires freq > 0
    ensures OnGrid(s, start, freq)
    ensures 2 * Dist(s, t) <= freq
    ensures OnGrid(t, start, freq) ==> s == t
  {
    var offset := (t - start) % freq;
    var down := t - offset;
    ClockEstimation.MultipleOfPeriod(down - start, freq, (t - start) / freq);
    if 2 * offset <= freq then down
    else
      ClockEstimation.MultipleOfPeriod(down + freq - start, freq, (t - start) / freq + 1);
      down + freq
  }

  /**
   * The grid from `start` to `start + duration + freq`, both ends included
   * where they fall on a tick.
   */
  function AlignmentGrid(start: int, freq: int, duration: nat): (g: seq<int>)
    requires freq > 0
    ensures |g| >= 2 && g[0] == start
    ensures forall k :: 0 <= k < |g| ==> g[k] == start + k * freq
    ensures g[|g| - 1] <= start + duration + freq < g[|g| - 1] + freq
  {
    var count := duration / freq + 2;
    assert (count - 1) * freq == freq * (duration / freq) + freq;
    seq(count, k => start + k * freq)
  }

  predicate HasDuplicates(s: seq<int>)
  {
    exists i, j :: 0 <= i < j < |s| && s[i] == s[j]
  }

  /** The aligned time of every reading under a method. */
  function AlignedTimes(times: seq<int>, start: int, freq: int, nearest: bool): (a: seq<int>)
    requires freq > 0
    ensures |a| == |times|
    ensures !nearest ==> a == times
    ensures nearest ==> forall k :: 0 <= k < |times| ==> OnGrid(a[k], start, freq) && 2 * Dist(a[k], times[k]) <= freq
    ensures nearest ==> forall k :: 0 <= k < |times| && OnGrid(times[k], start, freq) ==> a[k] == times[k]
    ensures StrictlyIncreasing(times) && !HasDuplicates(a) ==> StrictlyIncreasing(a)
  {
    var a := seq(|times|, k requires 0 <= k < |times| => if nearest then Snap(times[k], start, freq) else times[k]);
    if StrictlyIncreasing(times) && !HasDuplicates(a) then
      SnapKeepsOrder(times, a, start, freq, nearest);
      a
    else a
  }

  function Max(s: seq<int>): (m: int)
    requires |s| > 0
    ensures m in s && forall x :: x in s ==> x <= m
  {
    if |s| == 1 then s[0]
    else
      var rest := Max(s[1..]);
      assert forall x :: x in s ==> x == s[0] || x in s[1..];
      if s[0] >= rest then s[0] else rest
  }

  /** One device's frame: reading times and its value columns, in column order. */
  datatype Frame = Frame(times: seq<int>, names: seq<string>, cells: map<string, Column>)
  {
    predicate Valid()
    {
      && (forall c :: c in cells ==> |cells[c]| == |times|)
      && (forall c :: c in names ==> c in cells)
    }
  }

  /** The aligned frame: grid times and a column per value column. */
  datatype Aligned = Aligned(times: seq<int>, cells: map<string, Column>)

  predicate RowHasValue(cols: map<string, Column>, i: nat)
  {
    exists c :: c in cols && i < |cols[c]| && cols[c][i].Some?
  }

  /** The rows below `n` that hold some value, in order. */
  function KeptRows(cols: map<string, Column>, n: nat): (rows: seq<nat>)
    ensures forall j :: 0 <= j < |rows| ==> rows[j] < n
    ensures forall i, j :: 0 <= i < j < |rows| ==> rows[i] < rows[j]
    ensures forall i: nat :: i < n ==> (i in rows <==> RowHasValue(cols, i))
  {
    if n == 0 then []
    else KeptRows(cols, n - 1) + if RowHasValue(cols, n - 1) then [n - 1] else []
  }

  /**
   * `dropna(how='all')`: the grid rows where some column holds a value, in
   * grid order, with all their values.
   */
  function DropEmptyRows(grid: seq<int>, cols: map<string, Column>): (a: Aligned)
    requires forall c :: c in cols ==> |cols[c]| == |grid|
    ensures a.cells.Keys == cols.Keys
    ensures forall c :: c in a.cells ==> |a.cells[c]| == |a.times|
    ensures |a.times| == |KeptRows(cols, |grid|)|
    ensures forall j :: 0 <= j < |a.times| ==> a.times[j] == grid[KeptRows(cols, |grid|)[j]]
    ensures forall c, j :: c in cols && 0 <= j < |a.times| ==> a.cells[c][j] == cols[c][KeptRows(cols, |grid|)[j]]
  {
    var rows := KeptRows(cols, |grid|);
    Aligned(seq(|rows|, j requires 0 <= j < |rows| => grid[rows[j]]),
            map c | c in cols :: seq(|rows|, j requires 0 <= j < |rows| => cols[c][rows[j]]))
  }

  /** Every row left holds some value, and times stay in grid order. */
  lemma DroppedRowsAreEmpty(grid: seq<int>, cols: map<string, Column>)
    requires forall c :: c in cols ==> |cols[c]| == |grid|
    ensures var a := DropEmptyRows(grid, cols);
      && (forall j :: 0 <= j < |a.times| ==> a.times[j] in grid && RowHasValue(a.cells, j))
      && (StrictlyIncreasing(grid) ==> StrictlyIncreasing(a.times))
  {
    var a := DropEmptyRows(grid, cols);
    var rows := KeptRows(cols, |grid|);
    forall j | 0 <= j < |a.times|
      ensures RowHasValue(a.cells, j)
    {
      assert RowHasValue(cols, rows[j]);
      var c :| c in cols && rows[j] < |cols[c]| && cols[c][rows[j]].Some?;
      assert a.cells[c][j].Some?;
    }
  }

  /** A grid row where some column holds a value is kept, with its values. */
  lemma RowWithValueKept(grid: seq<int>, cols: map<string, Column>, i: nat) returns (j: nat)
    requires forall c :: c in cols ==> |cols[c]| == |grid|
    requires i < |grid| && RowHasValue(cols, i)
    ensures var a := DropEmptyRows(grid, cols);
      && j < |a.times| && a.times[j] == grid[i]
      && forall c :: c in cols ==> a.cells[c][j] == cols[c][i]
  {
    var rows := KeptRows(cols, |grid|);
    j :| 0 <= j < |rows| && rows[j] == i;
  }

  /** The aligned column of one value column. */
  function AlignedColumn(readings: Readings, interpolate: bool, grid: seq<int>, tolerance: int): (c: Result<Column>)
    requires readings.Valid() && StrictlyIncreasing(readings.times)
    ensures c.Success? ==> |c.value| == |grid|
    ensures c.Success? <==> !interpolate || forall k :: 0 <= k < |grid| ==> InterpolateAt(readings, grid[k], tolerance).Success?
    ensures c.Failure? ==> c.error == ValueError
    ensures c.Success? && interpolate ==> forall k :: 0 <= k < |grid| ==> c.value[k] == InterpolateAt(readings, grid[k], tolerance).value
    ensures c.Success? && !interpolate ==> forall k :: 0 <= k < |grid| ==> c.value[k] == NearestWithin(readings, grid[k], tolerance)
  {
    if interpolate then InterpolatedColumn(readings, grid, tolerance)
    else Success(seq(|grid|, k requires 0 <= k < |grid| => NearestWithin(readings, grid[k], tolerance)))
  }

  predicate KnownMethod(m: string)
  {
    m == "nearest" || m == "interpolation"
  }

  /** The aligned columns of the frame; interpolating a cumulative column may fail. */
  function AlignedColumns(f: Frame, aligned: seq<int>, grid: seq<int>, tolerance: int,
                          interpolate: bool, cumulative: seq<string>): (r: Result<map<string, Column>>)
    requires f.Valid() && |aligned| == |f.times| && StrictlyIncreasing(aligned)
    ensures r.Failure? ==> r.error == ValueError
    ensures r.Failure? <==> exists c :: c in f.names && interpolate && c in cumulative &&
                                        InterpolatedColumn(Readings(aligned, f.cells[c]), grid, tolerance).Failure?
    ensures r.Success? ==> forall c :: c in r.value <==> c in f.names
    ensures r.Success? ==> forall c :: c in r.value ==> |r.value[c]| == |grid|
    ensures r.Success? ==> forall c :: c in f.names ==>
      AlignedColumn(Readings(aligned, f.cells[c]), interpolate && c in cumulative, grid, tolerance).Success? &&
      r.value[c] == AlignedColumn(Readings(aligned, f.cells[c]), interpolate && c in cumulative, grid, tolerance).value
  {
    if exists c :: c in f.names && interpolate && c in cumulative &&
                   InterpolatedColumn(Readings(aligned, f.cells[c]), grid, tolerance).Failure?
    then Failure(ValueError)
    else Success(map c | c in f.names ::
                   AlignedColumn(Readings(aligned, f.cells[c]), interpolate && c in cumulative, grid, tolerance).value)
  }

  /**
   * What `align_timestamps` produces. It raises `ValueError` when there is
   * no start or no reading (the grid would end at NaT), for an unknown
   * method, when two readings land on the same aligned time, and when
   * interpolating a cumulative column fails.
   */
  function AlignedFrame(f: Frame, start: Option<int>, freq: int, tolerance: int, m: string, cumulative: seq<string>)
    : (r: Result<Aligned>)
    requires freq > 0 && f.Valid() && StrictlyIncreasing(f.times)
    ensures r.Failure? ==> r.error == ValueError
    ensures start.None? || |f.times| == 0 || !KnownMethod(m) ==> r.Failure?
    ensures (start.Some? && |f.times| > 0 && KnownMethod(m) &&
             HasDuplicates(AlignedTimes(f.times, start.value, freq, m == "nearest"))) ==> r.Failure?
    ensures r.Success? <==>
      && start.Some? && |f.times| > 0 && KnownMethod(m)
      && var aligned := AlignedTimes(f.times, start.value, freq, m == "nearest");
      && !HasDuplicates(aligned)
      && var grid := AlignmentGrid(start.value, freq, Max(f.times) - f.times[0]);
      && AlignedColumns(f, aligned, grid, tolerance, m == "interpolation", cumulative).Success?
    ensures r.Success? ==>
      var aligned := AlignedTimes(f.times, start.value, freq, m == "nearest");
      var grid := AlignmentGrid(start.value, freq, Max(f.times) - f.times[0]);
      r.value == DropEmptyRows(grid, AlignedColumns(f, aligned, grid, tolerance, m == "interpolation", cumulative).value)
  {
    if start.None? || |f.times| == 0 || !KnownMethod(m) then Failure(ValueError)
    else
      var aligned := AlignedTimes(f.times, start.value, freq, m == "nearest");
      if HasDuplicates(aligned) then Failure(ValueError)
      else
        var grid := AlignmentGrid(start.value, freq, Max(f.times) - f.times[0]);
        var cols := AlignedColumns(f, aligned, grid, tolerance, m == "interpolation", cumulative);
        if cols.Failure? then Failure(ValueError) else Success(DropEmptyRows(grid, cols.value))
  }

  /**
   * The rows of an aligned frame are grid ticks from `start` on, in order
   * and without repeats, and each holds some value.
   */
  lemma AlignedFrameOnGrid(f: Frame, start: int, freq: int, tolerance: int, m: string, cumulative: seq<string>)
    requires freq > 0 && f.Valid() && StrictlyIncreasing(f.times)
    requires AlignedFrame(f, Some(start), freq, tolerance, m, cumulative).Success?
    ensures var a := AlignedFrame(f, Some(start), freq, tolerance, m, cumulative).value;
      && StrictlyIncreasing(a.times)
      && (forall j :: 0 <= j < |a.times| ==> RowHasValue(a.cells, j))
      && (forall j :: 0 <= j < |a.times| ==> start <= a.times[j] && OnGrid(a.times[j], start, freq))
  {
    var aligned := AlignedTimes(f.times, start, freq, m == "nearest");
    var grid := AlignmentGrid(start, freq, Max(f.times) - f.times[0]);
    var cols := AlignedColumns(f, aligned, grid, tolerance, m == "interpolation", cumulative).value;
    assert AlignedFrame(f, Some(start), freq, tolerance, m, cumulative).value == DropEmptyRows(grid, cols);
    GridRowsOnGrid(grid, cols, start, freq);
  }

  /**
   * Each cell of an aligned frame is the value of its column at that row's
   * grid time: interpolated for a cumulative column under "interpolation",
   * the nearest reading within tolerance otherwise.
   */
  lemma AlignedFrameCells(f: Frame, start: int, freq: int, tolerance: int, m: string, cumulative: seq<string>)
    requires freq > 0 && f.Valid() && StrictlyIncreasing(f.times)
    requires AlignedFrame(f, Some(start), freq, tolerance, m, cumulative).Success?
    ensures var a := AlignedFrame(f, Some(start), freq, tolerance, m, cumulative).value;
      var aligned := AlignedTimes(f.times, start, freq, m == "nearest");
      CellsFollowColumns(f, aligned, a, tolerance, m == "interpolation", cumulative)
  {
    var aligned := AlignedTimes(f.times, start, freq, m == "nearest");
    var r := AlignedFrame(f, Some(start), freq, tolerance, m, cumulative);
    assert KnownMethod(m) && !HasDuplicates(aligned);
    var grid := AlignmentGrid(start, freq, Max(f.times) - f.times[0]);
    assert r.value == DropEmptyRows(grid, AlignedColumns(f, aligned, grid, tolerance, m == "interpolation", cumulative).value);
    DroppedRowsFollowColumns(f, aligned, grid, tolerance, m == "interpolation", cumulative);
  }

  /** The cells of `a` are the aligned columns of `f` read at `a`'s times. */
  ghost predicate CellsFollowColumns(f: Frame, aligned: seq<int>, a: Aligned, tolerance: int,
                               interpolate: bool, cumulative: seq<string>)
    requires f.Valid() && |aligned| == |f.times| && StrictlyIncreasing(aligned)
  {
    && (forall c :: c in a.cells <==> c in f.names)
    && (forall c :: c in f.names ==> |a.cells[c]| == |a.times|)
    && (forall c, j :: c in f.names && 0 <= j < |a.times| && interpolate && c in cumulative ==>
          InterpolateAt(Readings(aligned, f.cells[c]), a.times[j], tolerance).Success? &&
          a.cells[c][j] == InterpolateAt(Readings(aligned, f.cells[c]), a.times[j], tolerance).value)
    && (forall c, j :: c in f.names && 0 <= j < |a.times| && !(interpolate && c in cumulative) ==>
          a.cells[c][j] == NearestWithin(Readings(aligned, f.cells[c]), a.times[j], tolerance))
  }

  lemma DroppedRowsFollowColumns(f: Frame, aligned: seq<int>, grid: seq<int>, tolerance: int,
                                 interpolate: bool, cumulative: seq<string>)
    requires f.Valid() && |aligned| == |f.times| && StrictlyIncreasing(aligned)
    requires AlignedColumns(f, aligned, grid, tolerance, interpolate, cumulative).Success?
    ensures CellsFollowColumns(f, aligned, DropEmptyRows(grid, AlignedColumns(f, aligned, grid, tolerance, interpolate, cumulative).value),
                               tolerance, interpolate, cumulative)
  {
    var cols := AlignedColumns(f, aligned, grid, tolerance, interpolate, cumulative).value;
    var a := DropEmptyRows(grid, cols);
    var rows := KeptRows(cols, |grid|);
    forall c, j | c in f.names && 0 <= j < |a.times|
      ensures a.times[j] == grid[rows[j]] && a.cells[c][j] == cols[c][rows[j]] && rows[j] < |grid|
    {
    }
  }

  lemma GridRowsOnGrid(grid: seq<int>, cols: map<string, Column>, start: int, freq: int)
    requires freq > 0 && forall c :: c in cols ==> |cols[c]| == |grid|
    requires forall k :: 0 <= k < |grid| ==> grid[k] == start + k * freq
    ensures var a := DropEmptyRows(grid, cols);
      && StrictlyIncreasing(a.times)
      && (forall j :: 0 <= j < |a.times| ==> RowHasValue(a.cells, j))
      && (forall j :: 0 <= j < |a.times| ==> start <= a.times[j] && OnGrid(a.times[j], start, freq))
  {
    assert StrictlyIncreasing(grid) by {
      forall i, j | 0 <= i < j < |grid| ensures grid[i] < grid[j] {
        ClockEstimation.MulAtLeast(freq, j - i);
        assert grid[j] - grid[i] == (j - i) * freq;
      }
    }
    DroppedRowsAreEmpty(grid, cols);
    var a := DropEmptyRows(grid, cols);
    forall j | 0 <= j < |a.times|
      ensures start <= a.times[j] && OnGrid(a.times[j], start, freq)
    {
      var k := KeptRows(cols, |grid|)[j];
      assert a.times[j] == start + k * freq;
      ClockEstimation.MultipleOfPeriod(a.times[j] - start, freq, k);
    }
  }

  /** The value columns, one after the other, as `align_timestamps` adds them. */
  method AlignColumns(f: Frame, aligned: seq<int>, grid: seq<int>, tolerance: int,
                      interpolate: bool, cumulative: seq<string>) returns (r: Result<map<string, Column>>)
    requires f.Valid() && |aligned| == |f.times| && StrictlyIncreasing(aligned)
    ensures r == AlignedColumns(f, aligned, grid, tolerance, interpolate, cumulative)
  {
    var cols: map<string, Column> := map[];
    var k := 0;
    while k < |f.names|
      invariant 0 <= k <= |f.names|
      invariant forall c :: c in cols <==> c in f.names[..k]
      invariant forall c :: c in f.names[..k] && interpolate && c in cumulative ==>
        InterpolatedColumn(Readings(aligned, f.cells[c]), grid, tolerance).Success?
      invariant forall c :: c in cols ==>
        cols[c] == AlignedColumn(Readings(aligned, f.cells[c]), interpolate && c in cumulative, grid, tolerance).value
    {
      var c := f.names[k];
      var readings := Readings(aligned, f.cells[c]);
      var column: Column;
      if interpolate && c in cumulative {
        var v := InterpolateCumulative(readings, grid, tolerance);
        if v.Failure? {
          assert InterpolatedColumn(readings, grid, tolerance).Failure?;
          return Failure(ValueError);
        }
        column := v.value;
      } else {
        column := seq(|grid|, i requires 0 <= i < |grid| => NearestWithin(readings, grid[i], tolerance));
      }
      assert column == AlignedColumn(readings, interpolate && c in cumulative, grid, tolerance).value;
      cols := cols[c := column];
      assert f.names[..k + 1] == f.names[..k] + [c];
      k := k + 1;
    }
    assert f.names[..k] == f.names;
    var spec := AlignedColumns(f, aligned, grid, tolerance, interpolate, cumulative);
    assert spec.Success?;
    assert forall c :: c in cols <==> c in spec.value;
    assert forall c :: c in cols ==> cols[c] == spec.value[c];
    assert cols == spec.value;
    return Success(cols);
  }

  /** `align_timestamps`. */
  method AlignTimestamps(f: Frame, start: Option<int>, freq: int, tolerance: int, m: string, cumulative: seq<string>)
    returns (r: Result<Aligned>)
    requires freq > 0 && f.Valid() && StrictlyIncreasing(f.times)
    ensures r == AlignedFrame(f, start, freq, tolerance, m, cumulative)
  {
    if start.None? || |f.times| == 0 || !KnownMethod(m) {
      return Failure(ValueError);
    }
    var aligned := AlignedTimes(f.times, start.value, freq, m == "nearest");
    if HasDuplicates(aligned) {
      return Failure(ValueError);
    }
    var grid := AlignmentGrid(start.value, freq, Max(f.times) - f.times[0]);
    var cols := AlignColumns(f, aligned, grid, tolerance, m == "interpolation", cumulative);
    if cols.Failure? {
      return Failure(ValueError);
    }
    return Success(DropEmptyRows(grid, cols.value));
  }

  /** Snapping keeps readings in order, so aligned times without repeats increase. */
  lemma SnapKeepsOrder(times: seq<int>, aligned: seq<int>, start: int, freq: int, nearest: bool)
    requires freq > 0 && StrictlyIncreasing(times) && |aligned| == |times| && !HasDuplicates(aligned)
    requires forall k :: 0 <= k < |times| ==> aligned[k] == if nearest then Snap(times[k], start, freq) else times[k]
    ensures StrictlyIncreasing(aligned)
  {
    forall i, j | 0 <= i < j < |aligned|
      ensures aligned[i] < aligned[j]
    {
      if nearest {
        SnapMonotone(times[i], times[j], start, freq);
      }
    }
  }

  /** Snapping never reverses two times. */
  lemma SnapMonotone(t1: int, t2: int, start: int, freq: int)
    requires freq > 0 && t1 <= t2
    ensures Snap(t1, start, freq) <= Snap(t2, start, freq)
  {
    var s1 := Snap(t1, start, freq);
    var s2 := Snap(t2, start, freq);
    if t1 < t2 && s1 > s2 {
      // Two distinct ticks are a period apart, more than two times within
      // half a period of each can bridge.
      ModDifference(s1 - start, s2 - start, freq);
      PositiveMultiple(s1 - s2, freq);
    }
  }

  lemma ModDifference(a: int, b: int, f: int)
    requires f > 0 && a % f == 0 && b % f == 0
    ensures (a - b) % f == 0
  {
    ClockEstimation.MultipleOfPeriod(a - b, f, a / f - b / f);
  }

  lemma PositiveMultiple(x: int, f: int)
    requires f > 0 && x > 0 && x % f == 0
    ensures x >= f
  {
    var q := x / f;
    if q > 0 {
      ClockEstimation.MulAtLeast(f, q);
    }
  }
}
