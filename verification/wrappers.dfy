/**
 * Option and Result, the two failure-carrying values the model uses, and
 * the two small sequence helpers every part of the program shares.
 */
module Wrappers {

  datatype Option<+T> = None | Some(value: T)

  /** A computation that either yields a value or fails with an error. */
  datatype Result<+R, +E> = Ok(value: R) | Err(error: E)

  /** Python's `max` of two values. */
  function Max(a: nat, b: nat): nat
  {
    if a >= b then a else b
  }

  /** The index of the first occurrence of x, as `list.index` and `str.find` give it. */
  function FirstIndex<T(==)>(s: seq<T>, x: T): (p: nat)
    requires x in s
    ensures p < |s| && s[p] == x && x !in s[..p]
  {
    if s[0] == x then 0
    else
      assert s == [s[0]] + s[1..];
      var p := 1 + FirstIndex(s[1..], x);
      assert s[..p] == [s[0]] + s[1..][..p - 1];
      p
  }
}
