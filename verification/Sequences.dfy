/** Elements of a sequence by position. */
module Sequences {
  predicate NoRepeats<T(==)>(s: seq<T>) {
    forall i, j :: 0 <= i < j < |s| ==> s[i] != s[j]
  }

  predicate InRange(indices: seq<nat>, n: nat) {
    forall j :: 0 <= j < |indices| ==> indices[j] < n
  }

  function Select<T>(items: seq<T>, indices: seq<nat>): (r: seq<T>)
    requires InRange(indices, |items|)
    ensures |r| == |indices|
    ensures forall j :: 0 <= j < |indices| ==> r[j] == items[indices[j]]
  {
    seq(|indices|, j requires 0 <= j < |indices| => items[indices[j]])
  }

  /** s without the element at p. */
  function Without<T>(s: seq<T>, p: nat): (r: seq<T>)
    requires p < |s|
    ensures |r| == |s| - 1
  {
    s[..p] + s[p + 1..]
  }
}
