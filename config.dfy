/*
 * The option registry of etdmap/_config.py: a fixed set of named options,
 * each starting at its default value, whose values can be read and
 * replaced but never added to.
 */
module Config {
  import opened Basics

  /** One option: its key, default value and documentation (validator and callback are unused). */
  datatype OptionSpec<V> = OptionSpec(key: string, defaultValue: V, doc: string)

  /** The option names, in the order of the dictionary handed to `Options`. */
  function Names<V>(options: seq<(string, OptionSpec<V>)>): (r: seq<string>)
    ensures |r| == |options| && forall k :: 0 <= k < |options| ==> r[k] == options[k].0
  {
    seq(|options|, k requires 0 <= k < |options| => options[k].0)
  }

  predicate Distinct(names: seq<string>)
  {
    forall j, k :: 0 <= j < k < |names| ==> names[j] != names[k]
  }

  /** The configuration the constructor builds: each option name mapped to its default value. */
  function Defaults<V>(options: seq<(string, OptionSpec<V>)>): (m: map<string, V>)
    ensures forall x :: x in m <==> x in Names(options)
  {
    if options == [] then map[]
    else
      var last := options[|options| - 1];
      var init := options[..|options| - 1];
      assert forall k :: 0 <= k < |init| ==> Names(options)[k] == Names(init)[k];
      Defaults(init)[last.0 := last.1.defaultValue]
  }

  /** With distinct names, every option starts at its own default value. */
  lemma {:induction false} DefaultsHoldDefaultValues<V>(options: seq<(string, OptionSpec<V>)>, k: nat)
    requires Distinct(Names(options)) && k < |options|
    ensures options[k].0 in Defaults(options)
    ensures Defaults(options)[options[k].0] == options[k].1.defaultValue
    decreases |options|
  {
    var init := options[..|options| - 1];
    if k < |options| - 1 {
      assert Names(options)[k] != Names(options)[|options| - 1];
      assert Distinct(Names(init)) by {
        assert forall j :: 0 <= j < |init| ==> Names(init)[j] == Names(options)[j];
      }
      DefaultsHoldDefaultValues(init, k);
      assert init[k] == options[k];
    }
  }

  /** Attribute-style access to the configuration. */
  class Options<V> {
    var options: seq<(string, OptionSpec<V>)>
    var config: map<string, V>
    /** The keys of `config` in insertion order. */
    var names: seq<string>

    ghost predicate Valid()
      reads this
    {
      Distinct(names) && forall x :: x in config <==> x in names
    }

    /** `Options(options)`: every option at its default value. */
    constructor(options: seq<(string, OptionSpec<V>)>)
      requires Distinct(Names(options))
      ensures Valid()
      ensures this.options == options
      ensures config == Defaults(options) && names == Names(options)
    {
      this.options := options;
      var cfg: map<string, V> := map[];
      var k := 0;
      while k < |options|
        invariant 0 <= k <= |options|
        invariant cfg == Defaults(options[..k])
      {
        assert options[..k + 1][..k] == options[..k];
        cfg := cfg[options[k].0 := options[k].1.defaultValue];
        k := k + 1;
      }
      assert options[..k] == options;
      config := cfg;
      names := Names(options);
    }

    /** `getattr(options, key)`: the option's value, `AttributeError` for an unknown key. */
    function GetAttr(key: string): (r: Result<V>)
      reads this
      ensures Valid() ==> (r.Success? <==> key in names)
      ensures r.Failure? ==> r.error == AttributeError
    {
      if key in config then Success(config[key]) else Failure(AttributeError)
    }

    /**
     * `setattr(options, key, value)`: an existing option takes the new value
     * and nothing else changes; an unknown key raises `AttributeError` and
     * changes nothing.
     */
    method SetAttr(key: string, value: V) returns (err: Option<Error>)
      requires Valid()
      modifies this
      ensures Valid() && names == old(names) && options == old(options)
      ensures key in old(config) ==> err.None? && GetAttr(key) == Success(value)
      ensures key in old(config) ==> config == old(config)[key := value]
      ensures key !in old(config) ==> err == Some(AttributeError) && config == old(config)
      ensures forall k :: k != key ==> GetAttr(k) == old(GetAttr(k))
    {
      if key in config {
        config := config[key := value];
        err := None;
      } else {
        err := Some(AttributeError);
      }
    }

    /** `dir(options)`: every option name once, in insertion order. */
    function Dir(): (r: seq<string>)
      reads this
      requires Valid()
      ensures Distinct(r) && |r| == |config|
      ensures forall x :: x in r <==> GetAttr(x).Success?
    {
      DistinctCard(names);
      assert config.Keys == set x | x in names;
      names
    }
  }

  /** A sequence without repeats has as many distinct elements as entries. */
  lemma {:induction false} DistinctCard(s: seq<string>)
    requires Distinct(s)
    ensures |set x | x in s| == |s|
  {
    if s != [] {
      var init := s[..|s| - 1];
      assert Distinct(init);
      DistinctCard(init);
      assert (set x | x in s) == (set x | x in init) + {s[|s| - 1]};
      assert s[|s| - 1] !in init;
    }
  }
}
