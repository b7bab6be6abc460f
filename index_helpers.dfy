/*
 * The in-memory bookkeeping of the household index in
 * etdmap/index_helpers.py: handing out BSV household ids, inserting or
 * updating a household's row, filling its dataset flags, the combined
 * cumulative flag, and the strict column check before the index is saved.
 * Reading and writing files is not part of this model: the outcome of each
 * dataset validator on the household's table is an input.
 */
module IndexHelpers {
  import opened Basics
  import opened Tables

  /** A row of the index: BSV household id, the supplier's household id, the supplier. */
  datatype Entry = Entry(huisIdBsv: int, huisIdLeverancier: string, dataleverancier: string)

  /** The index: its rows and its flag columns, one nullable boolean per row. */
  datatype Index = Index(entries: seq<Entry>, flags: map<string, seq<Tri>>)
  {
    predicate Valid()
    {
      forall f :: f in flags ==> |flags[f]| == |entries|
    }
  }

  // ---------------------------------------------------------------------
  // get_household_id_pairs

  /** Row `e` is household `id` of supplier `provider`. */
  predicate SupplierRow(e: Entry, provider: string, id: string)
  {
    e.dataleverancier == provider && e.huisIdLeverancier == id
  }

  /** Row `k` is the last row of household `id` of supplier `provider`. */
  predicate LastSupplierRow(entries: seq<Entry>, provider: string, id: string, k: int)
  {
    0 <= k < |entries| && SupplierRow(entries[k], provider, id) &&
    forall j :: k < j < |entries| ==> !SupplierRow(entries[j], provider, id)
  }

  /**
   * The BSV id the index gives a supplier's household of this supplier; the
   * dictionary built from the index keeps the last row for a repeated id.
   */
  function ExistingId(entries: seq<Entry>, provider: string, id: string): (r: Option<int>)
    ensures r.Some? <==> exists k :: 0 <= k < |entries| && SupplierRow(entries[k], provider, id)
    ensures r.Some? ==> exists k :: LastSupplierRow(entries, provider, id, k) && entries[k].huisIdBsv == r.value
  {
    if entries == [] then None
    else
      var last := entries[|entries| - 1];
      if SupplierRow(last, provider, id) then
        assert LastSupplierRow(entries, provider, id, |entries| - 1);
        Some(last.huisIdBsv)
      else
        var init := entries[..|entries| - 1];
        var r := ExistingId(init, provider, id);
        assert forall k :: 0 <= k < |init| ==> init[k] == entries[k];
        assert r.Some? ==> exists k :: LastSupplierRow(entries, provider, id, k) && entries[k].huisIdBsv == r.value by {
          if r.Some? {
            var k :| LastSupplierRow(init, provider, id, k) && init[k].huisIdBsv == r.value;
            assert LastSupplierRow(entries, provider, id, k);
          }
        }
        r
  }

  /** `max(index_df["HuisIdBSV"], default=0)`. */
  function MaxId(entries: seq<Entry>): (m: int)
    ensures forall k :: 0 <= k < |entries| ==> entries[k].huisIdBsv <= m
    ensures entries == [] ==> m == 0
    ensures entries != [] ==> exists k :: 0 <= k < |entries| && entries[k].huisIdBsv == m
  {
    if entries == [] then 0
    else if |entries| == 1 then entries[0].huisIdBsv
    else
      var rest := MaxId(entries[..|entries| - 1]);
      var last := entries[|entries| - 1].huisIdBsv;
      if last > rest then last else rest
  }

  /** The data file `k` belongs to a household this supplier has not delivered before. */
  predicate IsNew(entries: seq<Entry>, files: seq<(string, string)>, provider: string, k: nat)
    requires k < |files|
  {
    ExistingId(entries, provider, files[k].0).None?
  }

  /** How many of the first `n` data files belong to new households. */
  function NewCount(entries: seq<Entry>, files: seq<(string, string)>, provider: string, n: nat): (c: nat)
    requires n <= |files|
    ensures c <= n
  {
    if n == 0 then 0
    else NewCount(entries, files, provider, n - 1) + (if IsNew(entries, files, provider, n - 1) then 1 else 0)
  }

  /** A new household after another new household has counted it. */
  lemma {:induction false} NewCountGrows(entries: seq<Entry>, files: seq<(string, string)>, provider: string, j: nat, k: nat)
    requires j < k <= |files| && IsNew(entries, files, provider, j)
    ensures NewCount(entries, files, provider, j) < NewCount(entries, files, provider, k)
    decreases k
  {
    if k > j + 1 {
      NewCountGrows(entries, files, provider, j, k - 1);
    }
  }

  /** The pair `get_household_id_pairs` makes for data file `k`. */
  function PairFor(entries: seq<Entry>, files: seq<(string, string)>, provider: string, k: nat): (p: (int, string))
    requires k < |files|
  {
    var known := ExistingId(entries, provider, files[k].0);
    if known.Some? then (known.value, files[k].1)
    else (MaxId(entries) + 1 + NewCount(entries, files, provider, k), files[k].1)
  }

  /** The pair for file `k`, and how many new households the files up to `k` hold. */
  lemma PairForStep(entries: seq<Entry>, files: seq<(string, string)>, provider: string, k: nat)
    requires k < |files|
    ensures var known := ExistingId(entries, provider, files[k].0);
      && PairFor(entries, files, provider, k) ==
        (if known.Some? then (known.value, files[k].1)
         else (MaxId(entries) + 1 + NewCount(entries, files, provider, k), files[k].1))
      && NewCount(entries, files, provider, k + 1) ==
        NewCount(entries, files, provider, k) + (if known.Some? then 0 else 1)
  {
  }

  /**
   * `get_household_id_pairs`: one `(HuisIdBSV, file)` pair per data file, in
   * file order. A household the index already holds for this supplier keeps
   * its id; new households get consecutive ids after the largest id in the
   * whole index.
   */
  method GetHouseholdIdPairs(index: Index, files: seq<(string, string)>, provider: string)
    returns (pairs: seq<(int, string)>)
    ensures |pairs| == |files|
    ensures forall k :: 0 <= k < |files| ==> pairs[k].1 == files[k].1
    ensures forall k :: 0 <= k < |files| && !IsNew(index.entries, files, provider, k) ==>
      pairs[k].0 == ExistingId(index.entries, provider, files[k].0).value
    ensures forall k :: 0 <= k < |files| && IsNew(index.entries, files, provider, k) ==>
      pairs[k].0 == MaxId(index.entries) + 1 + NewCount(index.entries, files, provider, k)
  {
    var existing := index.entries;
    pairs := [];
    var nextId := MaxId(existing) + 1;
    var k := 0;
    while k < |files|
      invariant 0 <= k <= |files| && |pairs| == k
      invariant nextId == MaxId(existing) + 1 + NewCount(existing, files, provider, k)
      invariant forall j :: 0 <= j < k ==> pairs[j] == PairFor(existing, files, provider, j)
    {
      var known := ExistingId(existing, provider, files[k].0);
      PairForStep(existing, files, provider, k);
      var pair := (nextId, files[k].1);
      if known.Some? {
        pair := (known.value, files[k].1);
      } else {
        nextId := nextId + 1;
      }
      pairs := pairs + [pair];
      k := k + 1;
    }
    forall k | 0 <= k < |files|
      ensures pairs[k].1 == files[k].1
      ensures !IsNew(existing, files, provider, k) ==> pairs[k].0 == ExistingId(existing, provider, files[k].0).value
      ensures IsNew(existing, files, provider, k) ==> pairs[k].0 == MaxId(existing) + 1 + NewCount(existing, files, provider, k)
    {
      assert pairs[k] == PairFor(existing, files, provider, k);
    }
  }

  /** New households get pairwise distinct ids, all above every id already in the index. */
  lemma NewIdsAreFresh(index: Index, files: seq<(string, string)>, provider: string, pairs: seq<(int, string)>)
    requires |pairs| == |files|
    requires forall k :: 0 <= k < |files| && IsNew(index.entries, files, provider, k) ==>
      pairs[k].0 == MaxId(index.entries) + 1 + NewCount(index.entries, files, provider, k)
    ensures forall j, k :: 0 <= j < k < |files| && IsNew(index.entries, files, provider, j) && IsNew(index.entries, files, provider, k) ==>
      pairs[j].0 < pairs[k].0
    ensures forall k, e :: 0 <= k < |files| && IsNew(index.entries, files, provider, k) && e in index.entries ==>
      e.huisIdBsv < pairs[k].0
  {
    forall j, k | 0 <= j < k < |files| && IsNew(index.entries, files, provider, j) && IsNew(index.entries, files, provider, k)
      ensures pairs[j].0 < pairs[k].0
    {
      NewCountGrows(index.entries, files, provider, j, k);
    }
  }

  // ---------------------------------------------------------------------
  // update_index: the upsert

  /** A supplier's household id as the caller hands it over: text or a number. */
  datatype SupplierId = Text(text: string) | Number(n: int)

  function Digit(d: nat): (c: char)
    requires d < 10
    ensures '0' <= c <= '9'
  {
    "0123456789"[d]
  }

  predicate AllDigits(s: string)
  {
    forall k :: 0 <= k < |s| ==> '0' <= s[k] <= '9'
  }

  /** The decimal digits of `n`, without leading zeros. */
  function DecimalDigits(n: nat): (s: string)
    ensures |s| > 0 && AllDigits(s)
  {
    if n < 10 then [Digit(n)] else DecimalDigits(n / 10) + [Digit(n % 10)]
  }

  /** The number a string of decimal digits spells. */
  function DecimalValue(s: string): nat
    requires AllDigits(s)
  {
    if s == [] then 0 else DecimalValue(s[..|s| - 1]) * 10 + (s[|s| - 1] - '0') as nat
  }

  /** Reading the digits back gives the number. */
  lemma {:induction false} DecimalRoundTrip(n: nat)
    ensures DecimalValue(DecimalDigits(n)) == n
  {
    var s := DecimalDigits(n);
    if n >= 10 {
      DecimalRoundTrip(n / 10);
      assert s[..|s| - 1] == DecimalDigits(n / 10);
    }
  }

  /** `str()` of a supplier id. */
  function Str(id: SupplierId): (s: string)
    ensures id.Text? ==> s == id.text
    ensures id.Number? && id.n >= 0 ==> AllDigits(s) && DecimalValue(s) == id.n
    ensures id.Number? && id.n < 0 ==> |s| > 1 && s[0] == '-' && AllDigits(s[1..]) && DecimalValue(s[1..]) == -id.n
  {
    match id
    case Text(t) => t
    case Number(n) =>
      if n >= 0 then DecimalRoundTrip(n); DecimalDigits(n)
      else DecimalRoundTrip(-n); assert ("-" + DecimalDigits(-n))[1..] == DecimalDigits(-n); "-" + DecimalDigits(-n)
  }

  /** The entry `update_index` receives. */
  datatype NewEntry = NewEntry(huisIdBsv: int, huisIdLeverancier: SupplierId)

  /** Some row of the index has this supplier id (of any supplier). */
  predicate Listed(index: Index, id: string)
  {
    exists k :: 0 <= k < |index.entries| && index.entries[k].huisIdLeverancier == id
  }

  /**
   * The upsert of `update_index`: rows with the entry's supplier id get its
   * BSV id and the supplier; without such a row one row is appended, with
   * every flag NA.
   */
  function Upsert(index: Index, e: NewEntry, provider: string): (r: Index)
    requires index.Valid()
    ensures r.Valid() && r.flags.Keys == index.flags.Keys
    ensures Listed(index, Str(e.huisIdLeverancier)) ==>
      |r.entries| == |index.entries| && r.flags == index.flags &&
      forall k :: 0 <= k < |index.entries| ==>
        r.entries[k] == if index.entries[k].huisIdLeverancier == Str(e.huisIdLeverancier)
          then Entry(e.huisIdBsv, Str(e.huisIdLeverancier), provider) else index.entries[k]
    ensures !Listed(index, Str(e.huisIdLeverancier)) ==>
      r.entries == index.entries + [Entry(e.huisIdBsv, Str(e.huisIdLeverancier), provider)] &&
      forall f :: f in r.flags ==> r.flags[f] == index.flags[f] + [None]
  {
    var id := Str(e.huisIdLeverancier);
    if Listed(index, id) then
      Index(seq(|index.entries|, k requires 0 <= k < |index.entries| =>
        if index.entries[k].huisIdLeverancier == id then Entry(e.huisIdBsv, id, provider) else index.entries[k]),
        index.flags)
    else
      Index(index.entries + [Entry(e.huisIdBsv, id, provider)], map f | f in index.flags :: index.flags[f] + [None])
  }

  /**
   * After the upsert the index holds the household, every row with its
   * supplier id carries its BSV id and the supplier, and no other row
   * changes.
   */
  lemma UpsertRecordsEntry(index: Index, e: NewEntry, provider: string)
    requires index.Valid()
    ensures var r := Upsert(index, e, provider);
      Listed(r, Str(e.huisIdLeverancier)) &&
      |r.entries| >= |index.entries| &&
      (forall k :: 0 <= k < |r.entries| && r.entries[k].huisIdLeverancier == Str(e.huisIdLeverancier) ==>
        r.entries[k].huisIdBsv == e.huisIdBsv && r.entries[k].dataleverancier == provider) &&
      (forall k :: 0 <= k < |index.entries| && index.entries[k].huisIdLeverancier != Str(e.huisIdLeverancier) ==>
        r.entries[k] == index.entries[k])
  {
    var r := Upsert(index, e, provider);
    var id := Str(e.huisIdLeverancier);
    if Listed(index, id) {
      var k :| 0 <= k < |index.entries| && index.entries[k].huisIdLeverancier == id;
      assert r.entries[k].huisIdLeverancier == id;
    } else {
      assert r.entries[|index.entries|].huisIdLeverancier == id;
    }
  }

  // ---------------------------------------------------------------------
  // update_index: the dataset flags

  /** The flag value a validator's outcome leaves: NA when it raised. */
  function Outcome(r: Result<Tri>): (v: Tri)
    ensures r.Failure? ==> v.None?
    ensures r.Success? ==> v == r.value
  {
    if r.Success? then r.value else None
  }

  /**
   * Adding the flag column as all NA if it is new, then writing `value` on
   * the rows of household `code`.
   */
  function SetFlag(index: Index, code: int, flag: string, value: Tri): (r: Index)
    requires index.Valid()
    ensures r.Valid() && r.entries == index.entries
    ensures r.flags.Keys == index.flags.Keys + {flag}
    ensures forall f :: f in index.flags && f != flag ==> r.flags[f] == index.flags[f]
    ensures forall i :: 0 <= i < |index.entries| ==>
      r.flags[flag][i] == if index.entries[i].huisIdBsv == code then value
        else if flag in index.flags then index.flags[flag][i] else None
  {
    var n := |index.entries|;
    var column := if flag in index.flags then index.flags[flag] else AllNA(n);
    index.(flags := index.flags[flag := seq(n, i requires 0 <= i < n =>
      if index.entries[i].huisIdBsv == code then value else column[i])])
  }

  /** The rest of the flag loop over `results`, the outcome of each dataset validator in turn. */
  function FillFlags(index: Index, code: int, results: seq<(string, Result<Tri>)>): (r: Index)
    requires index.Valid()
    ensures r.Valid() && r.entries == index.entries
    decreases |results|
  {
    if results == [] then index
    else FillFlags(SetFlag(index, code, results[0].0, Outcome(results[0].1)), code, results[1..])
  }

  predicate DistinctFlags(results: seq<(string, Result<Tri>)>)
  {
    forall j, k :: 0 <= j < k < |results| ==> results[j].0 != results[k].0
  }

  /** The flag columns after the loop are the old ones plus one per validator. */
  lemma {:induction false} FillFlagsColumns(index: Index, code: int, results: seq<(string, Result<Tri>)>)
    requires index.Valid()
    ensures forall f :: f in FillFlags(index, code, results).flags <==>
      f in index.flags || exists k :: 0 <= k < |results| && results[k].0 == f
    decreases |results|
  {
    if results != [] {
      var next := SetFlag(index, code, results[0].0, Outcome(results[0].1));
      var rest := results[1..];
      FillFlagsColumns(next, code, rest);
      forall f | f in FillFlags(index, code, results).flags
        ensures f in index.flags || exists k :: 0 <= k < |results| && results[k].0 == f
      {
        if f !in index.flags && f != results[0].0 {
          var k :| 0 <= k < |rest| && rest[k].0 == f;
          assert results[k + 1].0 == f;
        }
      }
      forall f | f in index.flags || exists k :: 0 <= k < |results| && results[k].0 == f
        ensures f in FillFlags(index, code, results).flags
      {
        if f !in index.flags && f != results[0].0 {
          var k :| 0 <= k < |results| && results[k].0 == f;
          assert rest[k - 1].0 == f;
        }
      }
    }
  }

  /** A flag column no validator writes is left as it was. */
  lemma {:induction false} FillFlagsUntouched(index: Index, code: int, results: seq<(string, Result<Tri>)>, f: string)
    requires index.Valid() && f in index.flags
    requires forall k :: 0 <= k < |results| ==> results[k].0 != f
    ensures f in FillFlags(index, code, results).flags
    ensures FillFlags(index, code, results).flags[f] == index.flags[f]
    decreases |results|
  {
    if results != [] {
      var next := SetFlag(index, code, results[0].0, Outcome(results[0].1));
      assert results[0].0 != f;
      FillFlagsUntouched(next, code, results[1..], f);
    }
  }

  /**
   * With distinct flag names (the validators are a dictionary), validator
   * `k`'s column holds its outcome on the household's rows, NA where it
   * raised, and the old value (NA for a new column) on every other row.
   */
  lemma {:induction false} FillFlagsWritesOutcome(index: Index, code: int, results: seq<(string, Result<Tri>)>, k: nat, i: nat)
    requires index.Valid() && DistinctFlags(results)
    requires k < |results| && i < |index.entries|
    ensures results[k].0 in FillFlags(index, code, results).flags
    ensures FillFlags(index, code, results).flags[results[k].0][i] ==
      if index.entries[i].huisIdBsv == code then Outcome(results[k].1)
      else if results[k].0 in index.flags then index.flags[results[k].0][i] else None
    decreases |results|
  {
    var next := SetFlag(index, code, results[0].0, Outcome(results[0].1));
    var rest := results[1..];
    if k == 0 {
      forall j | 0 <= j < |rest|
        ensures rest[j].0 != results[0].0
      {
        assert rest[j] == results[j + 1];
      }
      FillFlagsUntouched(next, code, rest, results[0].0);
    } else {
      assert rest[k - 1] == results[k];
      assert results[k].0 != results[0].0;
      FillFlagsWritesOutcome(next, code, rest, k - 1, i);
    }
  }

  // ---------------------------------------------------------------------
  // update_meta_validators

  const DiffOk: string := "validate_cumulative_diff_ok"

  /** Every `validate_<col>Diff` flag column is in the index. */
  predicate HasDiffFlags(index: Index, cumulative: seq<string>)
  {
    forall c :: c in cumulative ==> FlagName("validate_", c, "Diff") in index.flags
  }

  /** No `validate_<col>Diff` flag of row `i` is false. */
  predicate DiffFlagsHold(index: Index, cumulative: seq<string>, i: nat)
    requires index.Valid() && HasDiffFlags(index, cumulative) && i < |index.entries|
  {
    forall c :: c in cumulative ==> index.flags[FlagName("validate_", c, "Diff")][i] != Some(false)
  }

  /**
   * `update_meta_validators`: `validate_cumulative_diff_ok` is, per row, the
   * row-wise `all` of the `validate_<col>Diff` flags with NA skipped, and NA
   * on every row when one of those columns is absent.
   */
  function UpdateMetaValidators(index: Index, cumulative: seq<string>): (r: Index)
    requires index.Valid()
    ensures r.Valid() && r.entries == index.entries
    ensures r.flags.Keys == index.flags.Keys + {DiffOk}
    ensures forall f :: f in index.flags && f != DiffOk ==> r.flags[f] == index.flags[f]
    ensures !HasDiffFlags(index, cumulative) ==> forall i :: 0 <= i < |index.entries| ==> r.flags[DiffOk][i].None?
    ensures HasDiffFlags(index, cumulative) ==> forall i :: 0 <= i < |index.entries| ==>
      r.flags[DiffOk][i] == Some(DiffFlagsHold(index, cumulative, i))
  {
    var n := |index.entries|;
    if HasDiffFlags(index, cumulative) then
      index.(flags := index.flags[DiffOk := seq(n, i requires 0 <= i < n => Some(DiffFlagsHold(index, cumulative, i)))])
    else
      index.(flags := index.flags[DiffOk := AllNA(n)])
  }

  /** A row passes the combined flag exactly when each of its `Diff` flags is NA or true. */
  lemma DiffOkMeaning(index: Index, cumulative: seq<string>, i: nat)
    requires index.Valid() && HasDiffFlags(index, cumulative) && i < |index.entries|
    ensures UpdateMetaValidators(index, cumulative).flags[DiffOk][i] == Some(true) <==>
      forall c :: c in cumulative ==>
        var v := index.flags[FlagName("validate_", c, "Diff")][i]; v.None? || v == Some(true)
  {
    forall c | c in cumulative
      ensures index.flags[FlagName("validate_", c, "Diff")][i] != Some(false) <==>
        var v := index.flags[FlagName("validate_", c, "Diff")][i]; v.None? || v == Some(true)
    {
      var v := index.flags[FlagName("validate_", c, "Diff")][i];
      if v.Some? && v.value {
        assert v == Some(true);
      }
    }
  }

  // ---------------------------------------------------------------------
  // update_index as a whole

  /**
   * `update_index` without its file access: upsert the entry; when the
   * household's table exists, fill each dataset flag from its validator's
   * outcome (`results`, in the order of the validators); then recompute
   * `validate_cumulative_diff_ok`.
   */
  method UpdateIndex(index: Index, e: NewEntry, provider: string,
                     results: Option<seq<(string, Result<Tri>)>>, cumulative: seq<string>)
    returns (r: Index)
    requires index.Valid()
    ensures r.Valid()
    ensures r == UpdateMetaValidators(
      if results.Some? then FillFlags(Upsert(index, e, provider), e.huisIdBsv, results.value) else Upsert(index, e, provider),
      cumulative)
  {
    r := Upsert(index, e, provider);
    if results.Some? {
      var rs := results.value;
      ghost var start := r;
      var n := 0;
      while n < |rs|
        invariant 0 <= n <= |rs|
        invariant r.Valid()
        invariant FillFlags(r, e.huisIdBsv, rs[n..]) == FillFlags(start, e.huisIdBsv, rs)
      {
        assert rs[n..][1..] == rs[n + 1..];
        var (flag, outcome) := rs[n];
        r := SetFlag(r, e.huisIdBsv, flag, Outcome(outcome));
        n := n + 1;
      }
    }
    r := UpdateMetaValidators(r, cumulative);
  }

  // ---------------------------------------------------------------------
  // set_metadata_dtypes

  /** The dtype the last entry of `metadataDtypes` for column `c` names. */
  function LastDtype(metadataDtypes: seq<(string, string)>, c: string): (r: Option<string>)
    ensures r.Some? <==> exists k :: 0 <= k < |metadataDtypes| && metadataDtypes[k].0 == c
    ensures r.Some? ==> exists k :: 0 <= k < |metadataDtypes| && metadataDtypes[k] == (c, r.value) &&
                                    (forall j :: k < j < |metadataDtypes| ==> metadataDtypes[j].0 != c)
  {
    if metadataDtypes == [] then None
    else
      var later := LastDtype(metadataDtypes[1..], c);
      if later.Some? then
        var k :| 0 <= k < |metadataDtypes[1..]| && metadataDtypes[1..][k] == (c, later.value) &&
                 (forall j :: k < j < |metadataDtypes[1..]| ==> metadataDtypes[1..][j].0 != c);
        assert metadataDtypes[k + 1] == (c, later.value);
        later
      else if metadataDtypes[0].0 == c then Some(metadataDtypes[0].1)
      else None
  }

  /** The column dtypes after applying the entries in turn, skipping columns the table lacks. */
  function Applied(dtypes: map<string, string>, metadataDtypes: seq<(string, string)>): (r: map<string, string>)
    ensures r.Keys == dtypes.Keys
  {
    if metadataDtypes == [] then dtypes
    else
      var (col, dtype) := metadataDtypes[0];
      Applied(if col in dtypes then dtypes[col := dtype] else dtypes, metadataDtypes[1..])
  }

  /** After applying, a column has the dtype of its last entry, and keeps its own when it has none. */
  lemma {:induction false} AppliedLastWins(dtypes: map<string, string>, metadataDtypes: seq<(string, string)>, c: string)
    requires c in dtypes
    ensures Applied(dtypes, metadataDtypes)[c] ==
      if LastDtype(metadataDtypes, c).Some? then LastDtype(metadataDtypes, c).value else dtypes[c]
  {
    if metadataDtypes != [] {
      var (col, dtype) := metadataDtypes[0];
      AppliedLastWins(if col in dtypes then dtypes[col := dtype] else dtypes, metadataDtypes[1..], c);
    }
  }

  /**
   * `set_metadata_dtypes` on the table's column dtypes: each listed column
   * the table has takes its listed dtype; in strict mode a listed column the
   * table lacks raises `ValueError`, otherwise it is skipped.
   */
  method SetMetadataDtypes(dtypes: map<string, string>, metadataDtypes: seq<(string, string)>, strict: bool)
    returns (r: Result<map<string, string>>)
    ensures r.Failure? <==> strict && exists k :: 0 <= k < |metadataDtypes| && metadataDtypes[k].0 !in dtypes
    ensures r.Failure? ==> r.error == ValueError
    ensures r.Success? ==> r.value == Applied(dtypes, metadataDtypes)
  {
    var current := dtypes;
    var k := 0;
    while k < |metadataDtypes|
      invariant 0 <= k <= |metadataDtypes|
      invariant strict ==> forall j :: 0 <= j < k ==> metadataDtypes[j].0 in dtypes
      invariant current.Keys == dtypes.Keys
      invariant Applied(current, metadataDtypes[k..]) == Applied(dtypes, metadataDtypes)
    {
      var (col, dtype) := metadataDtypes[k];
      assert metadataDtypes[k..][1..] == metadataDtypes[k + 1..];
      if col in current {
        current := current[col := dtype];
      } else if strict {
        return Failure(ValueError);
      }
      k := k + 1;
    }
    return Success(current);
  }
}
