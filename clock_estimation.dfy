/*
 * Estimating the clock of each device that reports readings with a fixed
 * period, and reporting how many readings lie near that clock
 * (`determine_dynamic_clocks` and `report_tolerance_impact` in
 * etdmap/mapping_clock_helpers.py). Timestamps are whole seconds and the
 * period `freq` is a positive number of seconds.
 */
module ClockEstimation {
  import opened Basics

  lemma MulAtLeast(f: int, d: int)
    requires f > 0 && d >= 1
    ensures f * d >= f
  {
  }

  /** Euclidean division is determined by quotient and remainder. */
  lemma DivModUnique(x: int, f: int, q: int, r: int)
    requires f > 0 && 0 <= r < f && x == f * q + r
    ensures x % f == r && x / f == q
  {
    var d := q - x / f;
    assert f * d == x % f - r;
    if d >= 1 {
      MulAtLeast(f, d);
    } else if d <= -1 {
      MulAtLeast(f, -d);
    }
  }

  /** Two numbers that differ by a multiple of `f` leave the same remainder. */
  lemma ModCongruent(a: int, b: int, f: int)
    requires f > 0 && (a - b) % f == 0
    ensures a % f == b % f
  {
    var q := (a - b) / f;
    assert a - b == f * q;
    DivModUnique(a, f, b / f + q, b % f);
  }

  /** A multiple of the period leaves no remainder. */
  lemma MultipleOfPeriod(x: int, f: int, q: int)
    requires f > 0 && x == f * q
    ensures x % f == 0
  {
    DivModUnique(x, f, q, 0);
  }

  /** Rounding down to a multiple of the period. */
  lemma RoundDown(x: int, f: int)
    requires f > 0
    ensures (x - x % f) % f == 0
  {
    MultipleOfPeriod(x - x % f, f, x / f);
  }

  /**
   * How far second `s` lies from the nearest tick of a clock with period
   * `freq` that ticks where `(t + offset) % freq == 0`: the smaller of the
   * distances to the tick before and the tick after.
   */
  function Deviation(s: int, offset: int, freq: int): (d: int)
    requires freq > 0
    ensures 0 <= d && 2 * d <= freq
    ensures d == 0 <==> (s + offset) % freq == 0
  {
    var m := (s + offset) % freq;
    if m <= freq - m then m else freq - m
  }

  function TotalDeviation(secs: seq<int>, offset: int, freq: int): (t: int)
    requires freq > 0
    ensures t >= 0
  {
    if secs == [] then 0 else Deviation(secs[0], offset, freq) + TotalDeviation(secs[1..], offset, freq)
  }

  /**
   * `offsets[np.argmin(deviations)]` over the offsets below `k`: an offset
   * with the least total deviation, the first one when several tie.
   */
  function BestOffset(secs: seq<int>, freq: int, k: nat): (o: nat)
    requires freq > 0 && 0 < k
    ensures o < k
    ensures forall o' :: 0 <= o' < k ==> TotalDeviation(secs, o, freq) <= TotalDeviation(secs, o', freq)
    ensures forall o' :: 0 <= o' < o ==> TotalDeviation(secs, o, freq) < TotalDeviation(secs, o', freq)
  {
    if k == 1 then 0
    else
      var b := BestOffset(secs, freq, k - 1);
      if TotalDeviation(secs, k - 1, freq) < TotalDeviation(secs, b, freq) then k - 1 else b
  }

  function Min(s: seq<int>): (m: int)
    requires |s| > 0
    ensures m in s && forall x :: x in s ==> m <= x
  {
    if |s| == 1 then s[0]
    else
      var rest := Min(s[1..]);
      assert forall x :: x in s ==> x == s[0] || x in s[1..];
      if s[0] <= rest then s[0] else rest
  }

  /**
   * `find_optimal_start`: the tick of the best clock at or just before the
   * earliest timestamp; no timestamps give no start (NaT).
   */
  function OptimalStart(secs: seq<int>, freq: int): (r: Option<int>)
    requires freq > 0
    ensures r.Some? <==> |secs| > 0
  {
    if secs == [] then None
    else
      var m := Min(secs);
      Some(m - (m + BestOffset(secs, freq, freq)) % freq)
  }

  /**
   * The estimated start is a tick of the best clock and lies less than one
   * period before the earliest timestamp.
   */
  lemma OptimalStartIsTick(secs: seq<int>, freq: int)
    requires freq > 0 && |secs| > 0
    ensures var start := OptimalStart(secs, freq).value;
      && start <= Min(secs) < start + freq
      && (start + BestOffset(secs, freq, freq)) % freq == 0
  {
    var m := Min(secs);
    RoundDown(m + BestOffset(secs, freq, freq), freq);
  }

  /** Deviation from the clock whose ticks are `start` plus whole periods. */
  function ClockDeviation(s: int, start: int, freq: int): (d: int)
    requires freq > 0
    ensures 0 <= d && 2 * d <= freq
  {
    Deviation(s - start, 0, freq)
  }

  function TotalClockDeviation(secs: seq<int>, start: int, freq: int): (t: int)
    requires freq > 0
    ensures t >= 0
  {
    if secs == [] then 0 else ClockDeviation(secs[0], start, freq) + TotalClockDeviation(secs[1..], start, freq)
  }

  /** Measuring against a start is measuring against the offset that puts a tick there. */
  lemma {:induction false} ClockAndOffsetAgree(secs: seq<int>, start: int, offset: int, freq: int)
    requires freq > 0 && (start + offset) % freq == 0
    ensures TotalClockDeviation(secs, start, freq) == TotalDeviation(secs, offset, freq)
  {
    if secs != [] {
      ClockAndOffsetAgree(secs[1..], start, offset, freq);
      var s := secs[0];
      assert ((s + offset) - (s - start)) % freq == 0;
      ModCongruent(s + offset, s - start, freq);
      ModCongruent(s - start + 0, s - start, freq);
    }
  }

  /**
   * The estimated start is optimal: no other clock phase lies closer to the
   * timestamps in total.
   */
  lemma OptimalStartIsBest(secs: seq<int>, freq: int, other: int)
    requires freq > 0 && |secs| > 0
    ensures TotalClockDeviation(secs, OptimalStart(secs, freq).value, freq) <= TotalClockDeviation(secs, other, freq)
  {
    var o := BestOffset(secs, freq, freq);
    var start := OptimalStart(secs, freq).value;
    OptimalStartIsTick(secs, freq);
    ClockAndOffsetAgree(secs, start, o, freq);
    var o' := PhaseOf(other, freq);
    ClockAndOffsetAgree(secs, other, o', freq);
    assert TotalDeviation(secs, o, freq) <= TotalDeviation(secs, o', freq);
  }

  /** The offset in `[0, freq)` that puts a tick at `start`. */
  lemma PhaseOf(start: int, freq: int) returns (o: int)
    requires freq > 0
    ensures 0 <= o < freq && (start + o) % freq == 0
  {
    o := (-start) % freq;
    RoundDown(-start, freq);
    assert start + o == -((-start) - (-start) % freq);
    MultipleOfPeriod(start + o, freq, -((-start) / freq));
  }

  /** All devices' timestamps, one device after the other. */
  function Concat(frames: seq<seq<int>>): seq<int>
  {
    if frames == [] then [] else frames[0] + Concat(frames[1..])
  }

  datatype ClockKey = Device(index: nat) | Overall

  /**
   * `determine_dynamic_clocks`: the optimal start of every device, keyed by
   * its position, and the optimal start of all timestamps together.
   */
  method DetermineDynamicClocks(frames: seq<seq<int>>, freq: int) returns (starts: map<ClockKey, Option<int>>)
    requires freq > 0
    ensures Overall in starts && forall i: nat :: Device(i) in starts <==> i < |frames|
    ensures forall i :: 0 <= i < |frames| ==> starts[Device(i)] == OptimalStart(frames[i], freq)
    ensures starts[Overall] == OptimalStart(Concat(frames), freq)
  {
    starts := map[];
    var all: seq<int> := [];
    var i := 0;
    while i < |frames|
      invariant 0 <= i <= |frames|
      invariant Overall !in starts && forall j: nat :: Device(j) in starts <==> j < i
      invariant forall j :: 0 <= j < i ==> starts[Device(j)] == OptimalStart(frames[j], freq)
      invariant all == Concat(frames[..i])
    {
      var s := OptimalStart(frames[i], freq);
      starts := starts[Device(i) := s];
      ConcatSnoc(frames[..i], frames[i]);
      assert frames[..i + 1] == frames[..i] + [frames[i]];
      all := all + frames[i];
      i := i + 1;
    }
    assert frames[..i] == frames;
    var s := OptimalStart(all, freq);
    starts := starts[Overall := s];
  }

  lemma {:induction false} ConcatSnoc(frames: seq<seq<int>>, last: seq<int>)
    ensures Concat(frames + [last]) == Concat(frames) + last
    decreases |frames|
  {
    if frames == [] {
      assert [last][1..] == [];
    } else {
      assert (frames + [last])[1..] == frames[1..] + [last];
      ConcatSnoc(frames[1..], last);
    }
  }

  /** The number of timestamps within `tolerance` seconds of a tick of the clock; none without a clock. */
  function CountWithin(ts: seq<int>, start: Option<int>, tolerance: int, freq: int): (n: nat)
    requires freq > 0
    ensures n <= |ts|
    ensures start.None? ==> n == 0
  {
    if ts == [] || start.None? then 0
    else
      var near := if ClockDeviation(ts[0], start.value, freq) <= tolerance then 1 else 0;
      near + CountWithin(ts[1..], start, tolerance, freq)
  }

  /** A wider tolerance never counts fewer timestamps. */
  lemma {:induction false} CountWithinMonotone(ts: seq<int>, start: Option<int>, t1: int, t2: int, freq: int)
    requires freq > 0 && t1 <= t2
    ensures CountWithin(ts, start, t1, freq) <= CountWithin(ts, start, t2, freq)
  {
    if ts != [] && start.Some? {
      CountWithinMonotone(ts[1..], start, t1, t2, freq);
    }
  }

  /** A tolerance of half a period or more counts every timestamp, given a clock. */
  lemma {:induction false} CountWithinHalfPeriod(ts: seq<int>, start: int, tolerance: int, freq: int)
    requires freq > 0 && 2 * tolerance >= freq
    ensures CountWithin(ts, Some(start), tolerance, freq) == |ts|
  {
    if ts != [] {
      CountWithinHalfPeriod(ts[1..], start, tolerance, freq);
    }
  }

  /** A key of the per-column report: the count for a tolerance against the device's or the overall clock. */
  datatype ToleranceKey = Own(tolerance: int) | OverallClock(tolerance: int)

  /** A device's readings: timestamps and the names of its other columns. */
  datatype DeviceFrame = DeviceFrame(timestamps: seq<int>, columns: seq<string>)

  /** The clock under `key`; a missing key is reported apart. */
  function ClockOf(starts: map<ClockKey, Option<int>>, key: ClockKey): Option<int>
  {
    if key in starts then starts[key] else None
  }

  function KeysFor(tolerances: seq<int>): (keys: set<ToleranceKey>)
    ensures forall k :: k in keys <==> k.tolerance in tolerances
  {
    if tolerances == [] then {}
    else {Own(tolerances[0]), OverallClock(tolerances[0])} + KeysFor(tolerances[1..])
  }

  /** The counts reported for one column: each tolerance against both clocks. */
  function ToleranceCounts(ts: seq<int>, own: Option<int>, overall: Option<int>, tolerances: seq<int>, freq: int)
    : (m: map<ToleranceKey, nat>)
    requires freq > 0
    ensures forall k :: k in m <==> k.tolerance in tolerances
    ensures forall k :: k in m ==> m[k] == CountWithin(ts, if k.Own? then own else overall, k.tolerance, freq)
  {
    map k | k in KeysFor(tolerances) ::
      match k
      case Own(t) => CountWithin(ts, own, t, freq)
      case OverallClock(t) => CountWithin(ts, overall, t, freq)
  }

  /** Clocks are looked up only when there is something to count. */
  predicate MissingClock(frame: DeviceFrame, i: nat, starts: map<ClockKey, Option<int>>, tolerances: seq<int>)
  {
    |frame.columns| > 0 && |tolerances| > 0 && (Device(i) !in starts || Overall !in starts)
  }

  method CountTolerances(ts: seq<int>, own: Option<int>, overall: Option<int>, tolerances: seq<int>, freq: int)
    returns (counts: map<ToleranceKey, nat>)
    requires freq > 0
    ensures counts == ToleranceCounts(ts, own, overall, tolerances, freq)
  {
    counts := map[];
    var k := 0;
    while k < |tolerances|
      invariant 0 <= k <= |tolerances|
      invariant forall key :: key in counts <==> key.tolerance in tolerances[..k]
      invariant forall key :: key in counts ==>
        counts[key] == CountWithin(ts, if key.Own? then own else overall, key.tolerance, freq)
    {
      var t := tolerances[k];
      counts := counts[Own(t) := CountWithin(ts, own, t, freq)];
      counts := counts[OverallClock(t) := CountWithin(ts, overall, t, freq)];
      assert tolerances[..k + 1] == tolerances[..k] + [t];
      k := k + 1;
    }
    assert tolerances[..k] == tolerances;
    SameCountsAreToleranceCounts(counts, ts, own, overall, tolerances, freq);
  }

  /** A map with the keys and counts of `ToleranceCounts` is that map. */
  lemma SameCountsAreToleranceCounts(counts: map<ToleranceKey, nat>, ts: seq<int>, own: Option<int>, overall: Option<int>,
                                     tolerances: seq<int>, freq: int)
    requires freq > 0
    requires forall key :: key in counts <==> key.tolerance in tolerances
    requires forall key :: key in counts ==>
      counts[key] == CountWithin(ts, if key.Own? then own else overall, key.tolerance, freq)
    ensures counts == ToleranceCounts(ts, own, overall, tolerances, freq)
  {
    var spec := ToleranceCounts(ts, own, overall, tolerances, freq);
    assert counts.Keys == spec.Keys;
  }

  /**
   * `report_tolerance_impact`: for every device and every column other than
   * the timestamp, how many timestamps lie within each tolerance of the
   * device's own clock and of the overall clock. A clock missing from
   * `starts` raises as soon as it is needed.
   */
  method ReportToleranceImpact(frames: seq<DeviceFrame>, starts: map<ClockKey, Option<int>>,
                               tolerances: seq<int>, freq: int)
    returns (r: Result<map<nat, map<string, map<ToleranceKey, nat>>>>)
    requires freq > 0
    ensures r.Failure? <==> exists i :: 0 <= i < |frames| && MissingClock(frames[i], i, starts, tolerances)
    ensures r.Failure? ==> r.error == KeyError
    ensures r.Success? ==> forall i: nat :: i in r.value <==> i < |frames|
    ensures r.Success? ==> forall i :: 0 <= i < |frames| ==>
      forall c :: c in r.value[i] <==> c in frames[i].columns
    ensures r.Success? ==> forall i, c :: 0 <= i < |frames| && c in frames[i].columns ==>
      r.value[i][c] == ToleranceCounts(frames[i].timestamps, ClockOf(starts, Device(i)), ClockOf(starts, Overall), tolerances, freq)
  {
    var results: map<nat, map<string, map<ToleranceKey, nat>>> := map[];
    var i := 0;
    while i < |frames|
      invariant 0 <= i <= |frames|
      invariant forall j :: 0 <= j < i ==> !MissingClock(frames[j], j, starts, tolerances)
      invariant forall j: nat :: j in results <==> j < i
      invariant forall j :: 0 <= j < i ==> forall c :: c in results[j] <==> c in frames[j].columns
      invariant forall j, c :: 0 <= j < i && c in frames[j].columns ==>
        results[j][c] == ToleranceCounts(frames[j].timestamps, ClockOf(starts, Device(j)), ClockOf(starts, Overall), tolerances, freq)
    {
      var frame := frames[i];
      if MissingClock(frame, i, starts, tolerances) {
        return Failure(KeyError);
      }
      var own := ClockOf(starts, Device(i));
      var overall := ClockOf(starts, Overall);
      var perColumn: map<string, map<ToleranceKey, nat>> := map[];
      var c := 0;
      while c < |frame.columns|
        invariant 0 <= c <= |frame.columns|
        invariant forall x :: x in perColumn <==> x in frame.columns[..c]
        invariant forall x :: x in perColumn ==> perColumn[x] == ToleranceCounts(frame.timestamps, own, overall, tolerances, freq)
      {
        var counts := CountTolerances(frame.timestamps, own, overall, tolerances, freq);
        perColumn := perColumn[frame.columns[c] := counts];
        assert frame.columns[..c + 1] == frame.columns[..c] + [frame.columns[c]];
        c := c + 1;
      }
      assert frame.columns[..c] == frame.columns;
      results := results[i := perColumn];
      i := i + 1;
    }
    return Success(results);
  }
}
