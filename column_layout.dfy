/*
 * Column-level tidying of a mapped household table in
 * etdmap/mapping_helpers.py: filling the columns of devices that report
 * rarely (`fill_down_infrequent_devices`) and putting the columns in the
 * order of the data model (`rearrange_model_columns`).
 */
module ColumnLayout {
  import opened Basics

  /** The row of the last present value at or above row `i`. */
  function LastPresentThrough(v: Column, i: nat): (r: Option<nat>)
    requires i < |v|
    ensures r.Some? ==> r.value <= i && v[r.value].Some? && forall k :: r.value < k <= i ==> v[k].None?
    ensures r.None? ==> forall k :: 0 <= k <= i ==> v[k].None?
  {
    if v[i].Some? then Some(i)
    else if i == 0 then None
    else LastPresentThrough(v, i - 1)
  }

  /** The row of the first present value at or below row `i`. */
  function FirstPresentFrom(v: Column, i: nat): (r: Option<nat>)
    requires i <= |v|
    ensures r.Some? ==> i <= r.value < |v| && v[r.value].Some? && forall k :: i <= k < r.value ==> v[k].None?
    ensures r.None? ==> forall k :: i <= k < |v| ==> v[k].None?
    decreases |v| - i
  {
    if i == |v| then None
    else if v[i].Some? then Some(i)
    else FirstPresentFrom(v, i + 1)
  }

  /** A present row with only missing rows after it up to row `i` is the last present row through `i`. */
  lemma {:induction false} LastPresentIs(v: Column, i: nat, j: nat)
    requires j <= i < |v| && v[j].Some? && forall k :: j < k <= i ==> v[k].None?
    ensures LastPresentThrough(v, i) == Some(j)
    decreases i
  {
    if i > j {
      LastPresentIs(v, i - 1, j);
    }
  }

  /** A present row with only missing rows before it down to row `i` is the first present row from `i`. */
  lemma {:induction false} FirstPresentIs(v: Column, i: nat, j: nat)
    requires i <= j < |v| && v[j].Some? && forall k :: i <= k < j ==> v[k].None?
    ensures FirstPresentFrom(v, i) == Some(j)
    decreases j - i
  {
    if i < j {
      FirstPresentIs(v, i + 1, j);
    }
  }

  /** `ffill()`: a missing value takes the last present value above it. */
  function ForwardFill(v: Column): (r: Column)
    ensures |r| == |v|
    ensures forall i :: 0 <= i < |v| && v[i].Some? ==> r[i] == v[i]
    ensures forall i :: 0 <= i < |v| ==> (r[i].None? <==> forall k :: 0 <= k <= i ==> v[k].None?)
    ensures forall i, j :: 0 <= j <= i < |v| && v[j].Some? && (forall k :: j < k <= i ==> v[k].None?) ==> r[i] == v[j]
  {
    var r := seq(|v|, i requires 0 <= i < |v| =>
      match LastPresentThrough(v, i)
      case None => None
      case Some(j) => v[j]);
    assert forall i, j :: 0 <= j <= i < |v| && v[j].Some? && (forall k :: j < k <= i ==> v[k].None?) ==> r[i] == v[j] by {
      forall i, j | 0 <= j <= i < |v| && v[j].Some? && (forall k :: j < k <= i ==> v[k].None?)
        ensures r[i] == v[j]
      {
        LastPresentIs(v, i, j);
      }
    }
    r
  }

  /** `bfill()`: a missing value takes the first present value below it. */
  function BackwardFill(v: Column): (r: Column)
    ensures |r| == |v|
    ensures forall i :: 0 <= i < |v| && v[i].Some? ==> r[i] == v[i]
    ensures forall i :: 0 <= i < |v| ==> (r[i].None? <==> forall k :: i <= k < |v| ==> v[k].None?)
    ensures forall i, j :: 0 <= i <= j < |v| && v[j].Some? && (forall k :: i <= k < j ==> v[k].None?) ==> r[i] == v[j]
  {
    var r := seq(|v|, i requires 0 <= i < |v| =>
      match FirstPresentFrom(v, i)
      case None => None
      case Some(j) => v[j]);
    assert forall i, j :: 0 <= i <= j < |v| && v[j].Some? && (forall k :: i <= k < j ==> v[k].None?) ==> r[i] == v[j] by {
      forall i, j | 0 <= i <= j < |v| && v[j].Some? && (forall k :: i <= k < j ==> v[k].None?)
        ensures r[i] == v[j]
      {
        FirstPresentIs(v, i, j);
      }
    }
    r
  }

  /** `fillna(0.0)`. */
  function ZeroFill(v: Column): (r: Column)
    ensures |r| == |v| && AllPresent(r)
    ensures forall i :: 0 <= i < |v| ==> r[i] == if v[i].Some? then v[i] else Some(0.0)
  {
    seq(|v|, i requires 0 <= i < |v| => if v[i].Some? then v[i] else Some(0.0))
  }

  /**
   * `ffill().bfill().fillna(0.0)`: no value is missing afterwards and
   * present values stay.
   */
  function FillDown(v: Column): (r: Column)
    ensures |r| == |v| && AllPresent(r)
    ensures forall i :: 0 <= i < |v| && v[i].Some? ==> r[i] == v[i]
  {
    ZeroFill(BackwardFill(ForwardFill(v)))
  }

  /** In a column with some value, every filled value is one of the column's values. */
  lemma FillDownTakesColumnValues(v: Column, p: nat, i: nat)
    requires p < |v| && v[p].Some? && i < |v|
    ensures exists j :: 0 <= j < |v| && FillDown(v)[i] == v[j]
  {
    var f := ForwardFill(v);
    var last := |v| - 1;
    assert LastPresentThrough(v, last).Some?;
    assert f[last].Some?;
    var k1 := FirstPresentFrom(f, i).value;
    var k2 := LastPresentThrough(v, k1).value;
    FilledFrom(v, i, k1, k2);
  }

  lemma FilledFrom(v: Column, i: nat, k1: nat, k2: nat)
    requires i <= k1 < |v| && FirstPresentFrom(ForwardFill(v), i) == Some(k1)
    requires LastPresentThrough(v, k1) == Some(k2)
    ensures FillDown(v)[i] == v[k2]
  {
    var f := ForwardFill(v);
    assert f[k1] == v[k2];
    assert BackwardFill(f)[i] == f[k1];
  }

  /** A column without any value is filled with zeros. */
  lemma FillDownOfEmptyColumn(v: Column)
    requires forall j :: 0 <= j < |v| ==> v[j].None?
    ensures forall i :: 0 <= i < |v| ==> FillDown(v)[i] == Some(0.0)
  {
    var f := ForwardFill(v);
    forall i | 0 <= i < |v|
      ensures FillDown(v)[i] == Some(0.0)
    {
      assert forall k :: 0 <= k < |v| ==> LastPresentThrough(v, k).None? && f[k].None?;
      assert FirstPresentFrom(f, i).None?;
    }
  }

  /** Filling a column with nothing missing changes nothing. */
  lemma {:induction false} FillDownKeepsFullColumn(v: Column)
    requires AllPresent(v)
    ensures FillDown(v) == v
  {
  }

  /** Filling twice is filling once. */
  lemma FillDownIdempotent(v: Column)
    ensures FillDown(FillDown(v)) == FillDown(v)
  {
    FillDownKeepsFullColumn(FillDown(v));
  }

  /**
   * `fill_down_infrequent_devices`: fills each listed column the table has
   * and leaves every other column alone.
   */
  method FillDownInfrequentDevices(cols: map<string, Column>, names: seq<string>)
    returns (r: map<string, Column>)
    ensures r.Keys == cols.Keys
    ensures forall c :: c in r ==> r[c] == if c in names then FillDown(cols[c]) else cols[c]
  {
    r := cols;
    var k := 0;
    while k < |names|
      invariant 0 <= k <= |names|
      invariant r.Keys == cols.Keys
      invariant forall c :: c in r ==> r[c] == if c in names[..k] then FillDown(cols[c]) else cols[c]
    {
      var c := names[k];
      if c in r {
        if c in names[..k] {
          FillDownIdempotent(cols[c]);
        }
        r := r[c := FillDown(r[c])];
      }
      assert names[..k + 1] == names[..k] + [c];
      k := k + 1;
    }
    assert names[..k] == names;
  }

  /** Column names, their order, and the values of each column. */
  datatype Layout = Layout(names: seq<string>, rows: nat, cells: map<string, Column>)

  predicate Distinct(s: seq<string>)
  {
    forall i, j :: 0 <= i < j < |s| ==> s[i] != s[j]
  }

  /** `a` occurs in `s` before some occurrence of `b`. */
  predicate Before(s: seq<string>, a: string, b: string)
  {
    exists p, q :: 0 <= p < q < |s| && s[p] == a && s[q] == b
  }

  /** Names of `s[1..]` in their order, possibly after `s[0]`, are in the order of `s`. */
  lemma PrependKeepsOrder(s: seq<string>, rest: seq<string>, r: seq<string>)
    requires |s| > 0 && (r == rest || r == [s[0]] + rest)
    requires forall c :: c in rest ==> c in s[1..]
    requires forall i, j :: 0 <= i < j < |rest| ==> Before(s[1..], rest[i], rest[j])
    ensures forall i, j :: 0 <= i < j < |r| ==> Before(s, r[i], r[j])
  {
    forall i, j | 0 <= i < j < |r|
      ensures Before(s, r[i], r[j])
    {
      var off := |r| - |rest|;
      if i < off {
        assert r[j] == rest[j - off] && rest[j - off] in s[1..];
        var q :| 0 <= q < |s[1..]| && s[1..][q] == r[j];
        assert s[0] == r[i] && s[q + 1] == r[j];
      } else {
        assert Before(s[1..], rest[i - off], rest[j - off]);
        var p, q :| 0 <= p < q < |s[1..]| && s[1..][p] == r[i] && s[1..][q] == r[j];
        assert s[p + 1] == r[i] && s[q + 1] == r[j];
      }
    }
  }

  /** The names of `s` that `keep` lists (or does not list), in the order of `s`. */
  function Select(s: seq<string>, keep: seq<string>, inKeep: bool): (r: seq<string>)
    ensures forall c :: c in r <==> c in s && (c in keep) == inKeep
    ensures forall i, j :: 0 <= i < j < |r| ==> Before(s, r[i], r[j])
    ensures Distinct(s) ==> Distinct(r)
  {
    if s == [] then []
    else
      var rest := Select(s[1..], keep, inKeep);
      assert forall c :: c in s[1..] ==> c in s;
      assert Distinct(s) ==> s[0] !in s[1..];
      var r := (if (s[0] in keep) == inKeep then [s[0]] else []) + rest;
      PrependKeepsOrder(s, rest, r);
      r
  }

  /**
   * `rearrange_model_columns`: the data model's columns first, in the model's
   * order, then the table's other columns in their own order. With
   * `addColumns` every model column is there afterwards, those the table
   * lacked filled with missing values; without it, model columns the table
   * lacks stay absent.
   */
  function RearrangeModelColumns(t: Layout, model: seq<string>, addColumns: bool): (r: Layout)
    ensures r.rows == t.rows
    ensures forall c :: c in t.names ==> c in r.names
    ensures forall c :: c in t.cells ==> c in r.cells && r.cells[c] == t.cells[c]
    ensures addColumns ==> r.names == model + Select(t.names, model, false) && forall c :: c in model ==> c in r.cells
    ensures addColumns ==> forall c :: c in model && c !in t.cells ==> r.cells[c] == AllNA(t.rows)
    ensures !addColumns ==> r.names == Select(model, t.names, true) + Select(t.names, model, false)
    ensures !addColumns ==> forall c :: c in r.names <==> c in t.names
    ensures Distinct(model) && Distinct(t.names) ==> Distinct(r.names)
  {
    var extras := Select(t.names, model, false);
    if addColumns then
      var cells := map c | c in t.cells.Keys + (set m | m in model) ::
        if c in t.cells then t.cells[c] else AllNA(t.rows);
      var names := model + extras;
      assert Distinct(model) && Distinct(t.names) ==> Distinct(names) by {
        if Distinct(model) && Distinct(t.names) {
          forall i, j | 0 <= i < j < |names| ensures names[i] != names[j] {
            if j >= |model| && i < |model| {
              assert names[j] in extras;
              assert names[i] in model;
            }
          }
        }
      }
      Layout(names, t.rows, cells)
    else
      var present := Select(model, t.names, true);
      var names := present + extras;
      assert Distinct(model) && Distinct(t.names) ==> Distinct(names) by {
        if Distinct(model) && Distinct(t.names) {
          forall i, j | 0 <= i < j < |names| ensures names[i] != names[j] {
            if j >= |present| && i < |present| {
              assert names[j] in extras;
              assert names[i] in present;
            }
          }
        }
      }
      Layout(names, t.rows, t.cells)
  }
}
