/** Sequences without repetition, and slices. */
module Sequences {

  predicate Distinct<T(==)>(s: seq<T>) {
    forall i, j | 0 <= i < j < |s| :: s[i] != s[j]
  }

  lemma OnlyElement<T>(s: seq<T>, x: T)
    requires Distinct(s) && x in s && forall y | y in s :: y == x
    ensures s == [x]
  {
    var i :| 0 <= i < |s| && s[i] == x;
    assert s[0] in s && s[|s| - 1] in s;
  }

  lemma SliceOfSlice<T>(s: seq<T>, lo: nat, hi: nat, i: nat, j: nat)
    requires lo <= hi <= |s| && i <= j <= hi - lo
    ensures s[lo..hi][i..j] == s[lo + i..lo + j]
  {
    var t := s[lo..hi];
    assert forall k | i <= k < j :: t[k] == s[lo + k];
  }
}
