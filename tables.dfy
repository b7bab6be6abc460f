/*
 * The mapped household table that the dataset and record validators of
 * etdmap read: a `ReadingDate` column of timestamps, measured columns of
 * nullable floats, flag columns of nullable booleans, and the threshold
 * table the validators compare against.
 */
module Tables {
  import opened Basics

  const ReadingDate: string := "ReadingDate"

  /**
   * A table of `rows` rows. `readingDate` is `None` when the table has no
   * `ReadingDate` column; timestamps are in seconds.
   */
  datatype Table = Table(rows: nat, readingDate: Option<seq<int>>, cells: map<string, Column>, flags: map<string, seq<Tri>>)
  {
    /** Every column has one entry per row and every name is used once. */
    predicate Valid()
    {
      (readingDate.Some? ==> |readingDate.value| == rows)
      && ReadingDate !in cells && ReadingDate !in flags
      && (forall c :: c in cells ==> |cells[c]| == rows && c !in flags)
      && (forall f :: f in flags ==> |flags[f]| == rows)
    }

    /** `name in df.columns`. */
    predicate Has(name: string)
    {
      (name == ReadingDate && readingDate.Some?) || name in cells || name in flags
    }
  }

  /** The `Min` and `Max` of a variable; a bound given as "n.a." is `None`. */
  datatype Bounds = Bounds(min: Option<real>, max: Option<real>)

  /** The threshold table, keyed by variable name. */
  type Thresholds = map<string, Bounds>

  /** `all(skipna=True)` over nullable booleans: no entry is false. */
  predicate NoFalse(s: seq<Tri>)
  {
    forall i :: 0 <= i < |s| ==> s[i] != Some(false)
  }

  /** The name of a flag column derived from a variable name. */
  function FlagName(prefix: string, col: string, suffix: string): (k: string)
    ensures |k| == |prefix| + |col| + |suffix|
    ensures k[..|prefix|] == prefix && k[|k| - |suffix|..] == suffix
  {
    prefix + col + suffix
  }

  /** Two flag names with the same prefix and suffix name the same variable. */
  lemma FlagNameInjective(prefix: string, a: string, b: string, suffix: string)
    requires FlagName(prefix, a, suffix) == FlagName(prefix, b, suffix)
    ensures a == b
  {
    var k := FlagName(prefix, a, suffix);
    assert |a| == |b|;
    assert a == k[|prefix|..|prefix| + |a|];
    assert b == k[|prefix|..|prefix| + |b|];
  }
}
