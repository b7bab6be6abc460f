/*
 * Shared vocabulary of the etdmap model: optional values (a missing pandas
 * value is `None`), the outcome of an operation that can raise, the Python
 * exception kinds the modelled code raises, and the three-valued logic that
 * pandas' nullable booleans follow.
 */
module Basics {

  datatype Option<T> = None | Some(value: T)

  /** The Python exception an operation raises, by its class name. */
  datatype Error = ValueError | KeyError | TypeError | IndexError | AttributeError

  datatype Result<T> = Success(value: T) | Failure(error: Error)

  /** A nullable boolean: `None` is pandas' `pd.NA`. */
  type Tri = Option<bool>

  /** Kleene conjunction, the `&` of two nullable booleans. */
  function And3(a: Tri, b: Tri): (r: Tri)
    ensures r == Some(true) <==> a == Some(true) && b == Some(true)
    ensures r == Some(false) <==> a == Some(false) || b == Some(false)
  {
    if a == Some(false) || b == Some(false) then Some(false)
    else if a == Some(true) && b == Some(true) then Some(true)
    else None
  }

  /** Kleene `>=` against a bound that may be missing. */
  function AtLeast(x: real, bound: Option<real>): (r: Tri)
    ensures r.None? <==> bound.None?
    ensures r == Some(true) <==> bound.Some? && bound.value <= x
  {
    if bound.None? then None else Some(bound.value <= x)
  }

  /** Kleene `<=` against a bound that may be missing. */
  function AtMost(x: real, bound: Option<real>): (r: Tri)
    ensures r.None? <==> bound.None?
    ensures r == Some(true) <==> bound.Some? && x <= bound.value
  {
    if bound.None? then None else Some(x <= bound.value)
  }

  /** The distance between two integers. */
  function Dist(a: int, b: int): nat
  {
    if a >= b then a - b else b - a
  }

  /** `d` is a whole number of periods after `start`. */
  predicate OnGrid(d: int, start: int, freq: int)
    requires freq > 0
  {
    (d - start) % freq == 0
  }

  predicate StrictlyIncreasing(s: seq<int>)
  {
    forall i, j :: 0 <= i < j < |s| ==> s[i] < s[j]
  }

  /** A column of a frame; `None` is a missing value. */
  type Column = seq<Option<real>>

  predicate AllPresent(v: Column)
  {
    forall i :: 0 <= i < |v| ==> v[i].Some?
  }

  /** `n` missing values: an all-NA column or flag column. */
  function AllNA<T>(n: nat): (r: seq<Option<T>>)
    ensures |r| == n && forall i :: 0 <= i < n ==> r[i].None?
  {
    seq(n, _ => None)
  }
}
