/** What the other modules share: the failure-carrying types, selection by index, set sizes. */
module Basics {

  datatype Option<+T> = None | Some(value: T)

  datatype Result<+T, +E> = Ok(value: T) | Err(error: E)

  /** The elements of `s` at the given indices, in that order. */
  function Select<T>(s: seq<T>, at: seq<nat>): (r: seq<T>)
    requires forall x :: 0 <= x < |at| ==> at[x] < |s|
    ensures |r| == |at| && forall x :: 0 <= x < |at| ==> r[x] == s[at[x]]
  {
    seq(|at|, x requires 0 <= x < |at| => s[at[x]])
  }

  lemma SubsetSize<T>(a: set<T>, b: set<T>)
    requires a <= b
    ensures |a| <= |b|
  {
    assert b == a + (b - a);
  }
}
