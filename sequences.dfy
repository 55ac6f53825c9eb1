/** Facts about sequences that several modules share. */
module Sequences {

  /** No element occurs twice (the sequence enumerates a Python set or dict). */
  predicate Distinct<T(==)>(s: seq<T>)
  {
    forall i, j :: 0 <= i < j < |s| ==> s[i] != s[j]
  }
}
