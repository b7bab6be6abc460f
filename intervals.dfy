/*
 * Completing a household's 5-minute grid (`ensure_intervals` in
 * etdmap/mapping_helpers.py). A record is its reading date (seconds) and its
 * other fields; a record inserted for a missing slot carries no fields.
 */
module Intervals {
  import opened Basics
  import ClockEstimation

  /** The values of a record's other columns. */
  type Fields = map<string, Option<real>>

  datatype Record = Record(date: int, fields: Option<Fields>)

  /** The five minutes the source divides by, whatever frequency it is given. */
  const FiveMinutes: int := 300

  function MinDate(rows: seq<Record>): (m: int)
    requires |rows| > 0
    ensures forall i :: 0 <= i < |rows| ==> m <= rows[i].date
    ensures exists i :: 0 <= i < |rows| && m == rows[i].date
  {
    if |rows| == 1 then rows[0].date
    else var rest := MinDate(rows[1..]);
      assert forall i :: 1 <= i < |rows| ==> rows[1..][i - 1] == rows[i];
      if rows[0].date <= rest then rows[0].date else rest
  }

  function MaxDate(rows: seq<Record>): (m: int)
    requires |rows| > 0
    ensures forall i :: 0 <= i < |rows| ==> rows[i].date <= m
    ensures exists i :: 0 <= i < |rows| && m == rows[i].date
  {
    if |rows| == 1 then rows[0].date
    else var rest := MaxDate(rows[1..]);
      assert forall i :: 1 <= i < |rows| ==> rows[1..][i - 1] == rows[i];
      if rows[0].date >= rest then rows[0].date else rest
  }

  /** The slots `pd.date_range(earliest, latest, freq)` lists. */
  function Grid(earliest: int, latest: int, freq: int): (g: seq<int>)
    requires freq > 0 && earliest <= latest
    ensures |g| == (latest - earliest) / freq + 1
    ensures forall k :: 0 <= k < |g| ==> g[k] == earliest + k * freq
  {
    seq((latest - earliest) / freq + 1, k requires k >= 0 => earliest + k * freq)
  }

  lemma MulMono(k: int, n: int, freq: int)
    requires freq > 0 && 0 <= k <= n
    ensures k * freq <= n * freq
  {
  }

  /** Slot `k` of the grid lies between the ends and on the grid. */
  lemma SlotOnGrid(earliest: int, latest: int, freq: int, k: int)
    requires freq > 0 && earliest <= latest && 0 <= k <= (latest - earliest) / freq
    ensures earliest <= earliest + k * freq <= latest && OnGrid(earliest + k * freq, earliest, freq)
  {
    var n := (latest - earliest) / freq;
    MulMono(k, n, freq);
    assert n * freq <= latest - earliest;
    ClockEstimation.MultipleOfPeriod(k * freq, freq, k);
  }

  /** A date between the ends and on the grid is some slot `k`. */
  lemma SlotOf(earliest: int, latest: int, freq: int, d: int) returns (k: int)
    requires freq > 0 && earliest <= d <= latest && OnGrid(d, earliest, freq)
    ensures 0 <= k <= (latest - earliest) / freq && d == earliest + k * freq
  {
    k := (d - earliest) / freq;
    assert d - earliest == freq * k;
    ClockEstimation.DivModUnique(latest - earliest, freq, (latest - earliest) / freq, (latest - earliest) % freq);
    if k > (latest - earliest) / freq {
      MulMono((latest - earliest) / freq + 1, k, freq);
      assert false;
    }
  }

  /** The grid holds exactly the dates from `earliest` to `latest` that lie a whole number of periods after `earliest`. */
  lemma {:induction false} GridSlots(earliest: int, latest: int, freq: int)
    requires freq > 0 && earliest <= latest
    ensures forall d :: d in Grid(earliest, latest, freq) ==> earliest <= d <= latest && OnGrid(d, earliest, freq)
    ensures forall d :: earliest <= d <= latest && OnGrid(d, earliest, freq) ==> d in Grid(earliest, latest, freq)
  {
    var g := Grid(earliest, latest, freq);
    forall k | 0 <= k < |g|
      ensures earliest <= g[k] <= latest && OnGrid(g[k], earliest, freq)
    {
      SlotOnGrid(earliest, latest, freq, k);
    }
    forall d | earliest <= d <= latest && OnGrid(d, earliest, freq)
      ensures d in g
    {
      var k := SlotOf(earliest, latest, freq, d);
      assert g[k] == d;
    }
  }

  function Dates(rows: seq<Record>): (ds: seq<int>)
    ensures |ds| == |rows| && forall i :: 0 <= i < |rows| ==> ds[i] == rows[i].date
  {
    seq(|rows|, i requires 0 <= i < |rows| => rows[i].date)
  }

  /** The records dated `d`, in their order. */
  function Matching(rows: seq<Record>, d: int): (m: seq<Record>)
    ensures forall r :: r in m <==> r in rows && r.date == d
  {
    if rows == [] then []
    else (if rows[0].date == d then [rows[0]] else []) + Matching(rows[1..], d)
  }

  /**
   * A merge keyed on the date column: for every key in order, the records
   * with that date, or one record without fields when there is none.
   */
  function JoinOnKeys(keys: seq<int>, rows: seq<Record>): (out: seq<Record>)
    decreases |keys|
  {
    if keys == [] then []
    else var m := Matching(rows, keys[0]);
      (if m == [] then [Record(keys[0], None)] else m) + JoinOnKeys(keys[1..], rows)
  }

  /** Inserting into an increasing sequence of distinct keys. */
  function Insert(s: seq<int>, x: int): (r: seq<int>)
    requires StrictlyIncreasing(s)
    ensures StrictlyIncreasing(r)
    ensures forall y :: y in r <==> y in s || y == x
  {
    if s == [] then [x]
    else if x < s[0] then [x] + s
    else if x == s[0] then s
    else
      var rest := Insert(s[1..], x);
      assert forall y :: y in s[1..] ==> s[0] < y by {
        forall y | y in s[1..] ensures s[0] < y {
          var j :| 0 <= j < |s[1..]| && s[1..][j] == y;
          assert s[j + 1] == y;
        }
      }
      assert forall j :: 0 <= j < |rest| ==> s[0] < rest[j] by {
        forall j | 0 <= j < |rest| ensures s[0] < rest[j] {
          assert rest[j] in rest;
        }
      }
      [s[0]] + rest
  }

  /** The distinct keys of `s` in increasing order, as an outer merge sorts them. */
  function SortedDistinct(s: seq<int>): (r: seq<int>)
    ensures StrictlyIncreasing(r)
    ensures forall y :: y in r <==> y in s
  {
    if s == [] then []
    else
      var r := Insert(SortedDistinct(s[..|s| - 1]), s[|s| - 1]);
      assert forall y :: y in s <==> y in s[..|s| - 1] || y == s[|s| - 1] by {
        assert s == s[..|s| - 1] + [s[|s| - 1]];
      }
      r
  }

  /**
   * `ensure_intervals`: an empty table raises; a table with exactly as many
   * records as 5-minute slots between its first and last date is returned as
   * is; with fewer records the grid is outer-merged, unless that yields more
   * records than slots, in which case (and when there are more records than
   * slots) the grid is left-merged.
   */
  function EnsureIntervals(rows: seq<Record>, freq: int): (r: Result<seq<Record>>)
    requires freq > 0
    ensures r.Failure? <==> rows == []
    ensures r.Success? && (MaxDate(rows) - MinDate(rows)) / FiveMinutes + 1 == |rows| ==> r.value == rows
  {
    if rows == [] then Failure(ValueError)
    else
      var earliest := MinDate(rows);
      var latest := MaxDate(rows);
      var expected := (latest - earliest) / FiveMinutes + 1;
      var grid := Grid(earliest, latest, freq);
      if expected == |rows| then Success(rows)
      else if expected > |rows| then
        var outer := JoinOnKeys(SortedDistinct(grid + Dates(rows)), rows);
        if |outer| > expected then Success(JoinOnKeys(grid, rows)) else Success(outer)
      else Success(JoinOnKeys(grid, rows))
  }

  /** Every key gets at least one record, every record of the result has a key as its date. */
  lemma {:induction false} JoinCoversKeys(keys: seq<int>, rows: seq<Record>)
    ensures forall k :: k in keys ==> exists r :: r in JoinOnKeys(keys, rows) && r.date == k
    ensures forall r :: r in JoinOnKeys(keys, rows) ==> r.date in keys
    decreases |keys|
  {
    if keys != [] {
      JoinCoversKeys(keys[1..], rows);
      var m := Matching(rows, keys[0]);
      var head := if m == [] then [Record(keys[0], None)] else m;
      var out := JoinOnKeys(keys, rows);
      assert out == head + JoinOnKeys(keys[1..], rows);
      assert forall r :: r in head ==> r.date == keys[0];
      if m != [] {
        assert m[0] in out;
      } else {
        assert head[0] in out;
      }
      forall k | k in keys[1..]
        ensures exists r :: r in out && r.date == k
      {
        var r :| r in JoinOnKeys(keys[1..], rows) && r.date == k;
        assert r in out;
      }
      assert forall k :: k in keys ==> k == keys[0] || k in keys[1..];
    }
  }

  /** Every record whose date is a key survives the merge. */
  lemma {:induction false} JoinKeepsKeyedRecords(keys: seq<int>, rows: seq<Record>)
    ensures forall r :: r in rows && r.date in keys ==> r in JoinOnKeys(keys, rows)
    decreases |keys|
  {
    if keys != [] {
      JoinKeepsKeyedRecords(keys[1..], rows);
      var m := Matching(rows, keys[0]);
      var out := JoinOnKeys(keys, rows);
      assert out == (if m == [] then [Record(keys[0], None)] else m) + JoinOnKeys(keys[1..], rows);
      forall r | r in rows && r.date in keys
        ensures r in out
      {
        if r.date == keys[0] {
          assert r in m;
        } else {
          assert r.date in keys[1..];
        }
      }
    }
  }

  /**
   * Whenever the grid is merged in, every slot from the first to the last date
   * (at the given frequency) is present, and every original record on a slot
   * is kept.
   */
  lemma EnsureIntervalsCoversGrid(rows: seq<Record>, freq: int)
    requires freq > 0 && rows != []
    ensures var r := EnsureIntervals(rows, freq);
      r.Success? && r.value != rows ==> CoversGrid(r.value, rows, MinDate(rows), MaxDate(rows), freq)
  {
    var earliest := MinDate(rows);
    var latest := MaxDate(rows);
    var grid := Grid(earliest, latest, freq);
    var keys := SortedDistinct(grid + Dates(rows));
    var expected := (latest - earliest) / FiveMinutes + 1;
    var r := EnsureIntervals(rows, freq);
    if expected == |rows| {
      assert r.value == rows;
    } else if expected > |rows| && |JoinOnKeys(keys, rows)| <= expected {
      assert r.value == JoinOnKeys(keys, rows);
      assert forall d :: d in grid ==> d in grid + Dates(rows);
      MergeCovers(earliest, latest, freq, keys, rows);
    } else {
      assert r.value == JoinOnKeys(grid, rows);
      MergeCovers(earliest, latest, freq, grid, rows);
    }
  }

  /** Every slot has a record in `out`, and every record of `rows` on a slot is in `out`. */
  predicate CoversGrid(out: seq<Record>, rows: seq<Record>, earliest: int, latest: int, freq: int)
    requires freq > 0
  {
    && (forall d :: earliest <= d <= latest && OnGrid(d, earliest, freq) ==> exists x :: x in out && x.date == d)
    && (forall x :: x in rows && earliest <= x.date <= latest && OnGrid(x.date, earliest, freq) ==> x in out)
  }

  /** A merge on keys that include every grid slot covers the grid and keeps the records on it. */
  lemma MergeCovers(earliest: int, latest: int, freq: int, keys: seq<int>, rows: seq<Record>)
    requires freq > 0 && earliest <= latest
    requires forall d :: d in Grid(earliest, latest, freq) ==> d in keys
    ensures CoversGrid(JoinOnKeys(keys, rows), rows, earliest, latest, freq)
  {
    GridSlots(earliest, latest, freq);
    JoinCoversKeys(keys, rows);
    JoinKeepsKeyedRecords(keys, rows);
  }

  /** With unique dates, a left merge yields exactly one record per slot, in slot order. */
  lemma {:induction false} LeftMergeOnePerSlot(keys: seq<int>, rows: seq<Record>)
    requires forall i, j :: 0 <= i < j < |rows| ==> rows[i].date != rows[j].date
    ensures |JoinOnKeys(keys, rows)| == |keys|
    ensures forall k :: 0 <= k < |keys| ==> JoinOnKeys(keys, rows)[k].date == keys[k]
    decreases |keys|
  {
    if keys != [] {
      LeftMergeOnePerSlot(keys[1..], rows);
      AtMostOneMatch(rows, keys[0]);
      var m := Matching(rows, keys[0]);
      var head := if m == [] then [Record(keys[0], None)] else m;
      if m != [] {
        assert m[0] in m;
      }
      assert |head| == 1 && head[0].date == keys[0];
      var rest := JoinOnKeys(keys[1..], rows);
      assert JoinOnKeys(keys, rows) == head + rest;
      forall k | 1 <= k < |keys|
        ensures JoinOnKeys(keys, rows)[k].date == keys[k]
      {
        assert JoinOnKeys(keys, rows)[k] == rest[k - 1];
      }
    }
  }

  lemma {:induction false} NoMatch(rows: seq<Record>, d: int)
    requires forall r :: r in rows ==> r.date != d
    ensures Matching(rows, d) == []
    decreases |rows|
  {
    if rows != [] {
      assert forall r :: r in rows[1..] ==> r in rows;
      NoMatch(rows[1..], d);
    }
  }

  lemma {:induction false} AtMostOneMatch(rows: seq<Record>, d: int)
    requires forall i, j :: 0 <= i < j < |rows| ==> rows[i].date != rows[j].date
    ensures |Matching(rows, d)| <= 1
    decreases |rows|
  {
    if rows != [] {
      AtMostOneMatch(rows[1..], d);
      if rows[0].date == d {
        forall r | r in rows[1..]
          ensures r.date != d
        {
          var j :| 0 <= j < |rows[1..]| && rows[1..][j] == r;
          assert rows[j + 1] == r;
        }
        NoMatch(rows[1..], d);
      }
    }
  }
}
