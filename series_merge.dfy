/*
 * Bringing the aligned frames of several devices onto one clock and
 * joining them on their timestamps (`align_and_merge_dataframes` in
 * etdmap/mapping_clock_helpers.py). A frame is given by its timestamps in
 * row order, in whole seconds.
 */
module SeriesMerge {
  import opened Basics
  import ClockEstimation

  /** `diff()` of the timestamps without its missing first entry: the step before each row. */
  function Steps(times: seq<int>): (d: seq<int>)
    ensures |times| <= 1 ==> |d| == 0
    ensures |times| > 1 ==> |d| == |times| - 1
    ensures forall i :: 0 <= i < |d| ==> d[i] == times[i + 1] - times[i]
  {
    if |times| <= 1 then [] else seq(|times| - 1, i requires 0 <= i < |times| - 1 => times[i + 1] - times[i])
  }

  function Count(s: seq<int>, x: int): (n: nat)
    ensures n <= |s|
  {
    if s == [] then 0 else (if s[0] == x then 1 else 0) + Count(s[1..], x)
  }

  /** No entry among the first `n` is more frequent than `m`, nor as frequent and smaller. */
  predicate MostFrequentAmong(s: seq<int>, n: nat, m: int)
    requires n <= |s|
  {
    && (forall k :: 0 <= k < n ==> Count(s, s[k]) <= Count(s, m))
    && (forall k :: 0 <= k < n && Count(s, s[k]) == Count(s, m) ==> m <= s[k])
  }

  /** Among the first `n` entries, where the most frequent value is, the least of several. */
  function ModeAmong(s: seq<int>, n: nat): (m: nat)
    requires 0 < n <= |s|
    ensures m < n
  {
    if n == 1 then 0
    else
      var b := ModeAmong(s, n - 1);
      var x := s[n - 1];
      if Count(s, x) > Count(s, s[b]) || (Count(s, x) == Count(s, s[b]) && x < s[b]) then n - 1 else b
  }

  lemma {:induction false} ModeAmongIsMode(s: seq<int>, n: nat)
    requires 0 < n <= |s|
    ensures MostFrequentAmong(s, n, s[ModeAmong(s, n)])
  {
    if n > 1 {
      ModeAmongIsMode(s, n - 1);
    }
  }

  /**
   * `mode().iloc[0]` of the steps: the most frequent step, the least of
   * several; there is none with fewer than two rows.
   */
  function ModalStep(times: seq<int>): Option<int>
  {
    var d := Steps(times);
    if |d| == 0 then None else Some(d[ModeAmong(d, |d|)])
  }

  /** The modal step is a step, no step is more frequent, and it is the least of the most frequent. */
  lemma ModalStepIsMode(times: seq<int>)
    requires |times| > 1
    ensures var d := Steps(times);
      var m := ModalStep(times).value;
      && m in d
      && (forall x :: x in d ==> Count(d, x) <= Count(d, m))
      && (forall x :: x in d && Count(d, x) == Count(d, m) ==> m <= x)
  {
    var d := Steps(times);
    var m := ModalStep(times).value;
    ModeAmongIsMode(d, |d|);
    assert MostFrequentAmong(d, |d|, m);
    forall x | x in d
      ensures Count(d, x) <= Count(d, m)
      ensures Count(d, x) == Count(d, m) ==> m <= x
    {
      var k :| 0 <= k < |d| && d[k] == x;
    }
  }

  /**
   * The frequency check on one frame: no modal step is an `IndexError`, a
   * modal step more than one second away from `freq` a `ValueError`.
   */
  function StepError(times: seq<int>, freq: int): (e: Option<Error>)
    ensures |times| <= 1 ==> e == Some(IndexError)
    ensures |times| > 1 ==> (e.Some? <==> Dist(ModalStep(times).value, freq) > 1)
    ensures |times| > 1 && e.Some? ==> e.value == ValueError
  {
    match ModalStep(times)
    case None => Some(IndexError)
    case Some(m) => if Dist(m, freq) > 1 then Some(ValueError) else None
  }

  /** The error of the first frame that fails the frequency check. */
  function FirstStepError(frames: seq<seq<int>>, freq: int): (e: Option<Error>)
    ensures e.None? <==> forall i :: 0 <= i < |frames| ==> StepError(frames[i], freq).None?
  {
    if frames == [] then None
    else if StepError(frames[0], freq).Some? then StepError(frames[0], freq)
    else
      var tail := frames[1..];
      var rest := FirstStepError(tail, freq);
      assert forall i :: 1 <= i < |frames| ==> tail[i - 1] == frames[i];
      rest
  }

  lemma {:induction false} FirstStepErrorAt(frames: seq<seq<int>>, freq: int, i: nat)
    requires i < |frames| && StepError(frames[i], freq).Some?
    requires forall j :: 0 <= j < i ==> StepError(frames[j], freq).None?
    ensures FirstStepError(frames, freq) == StepError(frames[i], freq)
  {
    if i > 0 {
      var rest := frames[1..];
      forall j | 0 <= j < i - 1
        ensures StepError(rest[j], freq).None?
      {
        assert rest[j] == frames[j + 1];
      }
      FirstStepErrorAt(rest, freq, i - 1);
    }
  }

  /**
   * The shift that moves a frame starting at `first` onto the reference
   * clock: the remainder of `reference - first`, taken the short way round.
   */
  function Shift(reference: int, first: int, freq: int): (s: int)
    requires freq > 0
    ensures -freq < 2 * s <= freq
    ensures (first + s - reference) % freq == 0
  {
    var shift := (reference - first) % freq;
    ClockEstimation.RoundDown(reference - first, freq);
    assert first + shift - reference == -((reference - first) - shift);
    ClockEstimation.MultipleOfPeriod(first + shift - reference, freq, -((reference - first) / freq));
    if 2 * shift > freq then
      ClockEstimation.MultipleOfPeriod(first + shift - freq - reference, freq, -((reference - first) / freq) - 1);
      shift - freq
    else shift
  }

  /** The earliest timestamp of every frame. */
  function Firsts(frames: seq<seq<int>>): (f: seq<int>)
    requires forall i :: 0 <= i < |frames| ==> |frames[i]| > 0
    ensures |f| == |frames| && forall i :: 0 <= i < |frames| ==> f[i] == ClockEstimation.Min(frames[i])
  {
    seq(|frames|, i requires 0 <= i < |frames| => ClockEstimation.Min(frames[i]))
  }

  /**
   * The reference clock: the first frame's start, or the tick of the clock
   * that best fits all starts at or before the earliest of them. Without
   * frames the first is an `IndexError` and the earliest a `ValueError`.
   */
  function Reference(firsts: seq<int>, useFirst: bool, freq: int): (r: Result<int>)
    requires freq > 0
    ensures r.Failure? <==> |firsts| == 0
    ensures r.Failure? ==> r.error == (if useFirst then IndexError else ValueError)
    ensures r.Success? && useFirst ==> r.value == firsts[0]
  {
    if |firsts| == 0 then Failure(if useFirst then IndexError else ValueError)
    else if useFirst then Success(firsts[0])
    else Success(ClockEstimation.OptimalStart(firsts, freq).value)
  }

  /** Without `useFirst` the reference fits the frames' starts at least as well as any other clock. */
  lemma ReferenceFitsStarts(firsts: seq<int>, freq: int, other: int)
    requires freq > 0 && |firsts| > 0
    ensures ClockEstimation.TotalClockDeviation(firsts, Reference(firsts, false, freq).value, freq)
         <= ClockEstimation.TotalClockDeviation(firsts, other, freq)
  {
    ClockEstimation.OptimalStartIsBest(firsts, freq, other);
  }

  /** The shifted timestamps of every frame and the timestamps of the joined table. */
  datatype Merged = Merged(shifts: seq<int>, shifted: seq<seq<int>>, timestamps: set<int>)

  function Moved(times: seq<int>, shift: int): (m: seq<int>)
    ensures |m| == |times| && forall k :: 0 <= k < |times| ==> m[k] == times[k] + shift
  {
    seq(|times|, k requires 0 <= k < |times| => times[k] + shift)
  }

  /** The frequency check, frame by frame, stopping at the first that fails. */
  method CheckFrequencies(frames: seq<seq<int>>, freq: int) returns (e: Option<Error>)
    ensures e == FirstStepError(frames, freq)
  {
    var i := 0;
    while i < |frames|
      invariant 0 <= i <= |frames|
      invariant FirstStepError(frames[i..], freq) == FirstStepError(frames, freq)
    {
      e := StepError(frames[i], freq);
      if e.Some? {
        return;
      }
      assert frames[i..][1..] == frames[i + 1..];
      i := i + 1;
    }
    assert frames[i..] == [];
    return None;
  }

  /** Moves every frame by its shift onto `reference` and joins their timestamps. */
  method ShiftAndJoin(frames: seq<seq<int>>, firsts: seq<int>, reference: int, freq: int) returns (m: Merged)
    requires freq > 0 && |firsts| == |frames|
    ensures |m.shifts| == |frames| && |m.shifted| == |frames|
    ensures forall i :: 0 <= i < |frames| ==> m.shifts[i] == Shift(reference, firsts[i], freq)
    ensures forall i :: 0 <= i < |frames| ==> m.shifted[i] == Moved(frames[i], m.shifts[i])
    ensures forall x :: x in m.timestamps <==> exists i :: 0 <= i < |frames| && x in m.shifted[i]
  {
    var shifts: seq<int> := [];
    var shifted: seq<seq<int>> := [];
    var merged: set<int> := {};
    var i := 0;
    while i < |frames|
      invariant 0 <= i <= |frames| && |shifts| == i && |shifted| == i
      invariant forall j :: 0 <= j < i ==> shifts[j] == Shift(reference, firsts[j], freq)
      invariant forall j :: 0 <= j < i ==> shifted[j] == Moved(frames[j], shifts[j])
      invariant forall x :: x in merged <==> exists j :: 0 <= j < i && x in shifted[j]
    {
      var shift := Shift(reference, firsts[i], freq);
      var moved := Moved(frames[i], shift);
      shifts := shifts + [shift];
      shifted := shifted + [moved];
      merged := merged + set x | x in moved;
      i := i + 1;
    }
    return Merged(shifts, shifted, merged);
  }

  /**
   * `align_and_merge_dataframes`: a single frame comes back as it is;
   * otherwise every frame must pass the frequency check, then each is moved
   * by its shift onto the reference clock and the frames are joined on
   * their timestamps.
   */
  method AlignAndMergeDataframes(frames: seq<seq<int>>, useFirst: bool, freq: int) returns (r: Result<Merged>)
    requires freq > 0
    ensures |frames| == 1 ==> r == Success(Merged([0], frames, set x | x in frames[0]))
    ensures |frames| != 1 && FirstStepError(frames, freq).Some? ==> r == Failure(FirstStepError(frames, freq).value)
    ensures |frames| == 0 ==> r == Failure(if useFirst then IndexError else ValueError)
    ensures r.Success? <==> |frames| == 1 || (|frames| > 1 && FirstStepError(frames, freq).None?)
    ensures r.Success? && |frames| > 1 ==>
      var firsts := Firsts(frames);
      var reference := Reference(firsts, useFirst, freq).value;
      && |r.value.shifts| == |frames| && |r.value.shifted| == |frames|
      && (forall i :: 0 <= i < |frames| ==> r.value.shifts[i] == Shift(reference, firsts[i], freq))
      && (forall i :: 0 <= i < |frames| ==> r.value.shifted[i] == Moved(frames[i], r.value.shifts[i]))
      && (forall x :: x in r.value.timestamps <==> exists i :: 0 <= i < |frames| && x in r.value.shifted[i])
  {
    if |frames| == 1 {
      return Success(Merged([0], frames, set x | x in frames[0]));
    }
    var e := CheckFrequencies(frames, freq);
    if e.Some? {
      return Failure(e.value);
    }
    assert forall i :: 0 <= i < |frames| ==> |frames[i]| > 1;
    var firsts := Firsts(frames);
    var reference := Reference(firsts, useFirst, freq);
    if reference.Failure? {
      return Failure(reference.error);
    }
    var merged := ShiftAndJoin(frames, firsts, reference.value, freq);
    return Success(merged);
  }

  /** Every frame's earliest timestamp lands on the reference clock, and none moves by more than half a period. */
  lemma MergedStartsOnReference(reference: int, firsts: seq<int>, freq: int, i: nat)
    requires freq > 0 && i < |firsts|
    ensures var s := Shift(reference, firsts[i], freq);
      (firsts[i] + s - reference) % freq == 0 && 2 * Dist(s, 0) <= freq
  {
  }
}
