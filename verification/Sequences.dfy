// Small vocabulary of finite sequences shared by the other modules.
module Sequences {

  // No element occurs twice.
  ghost predicate Distinct<T>(s: seq<T>) {
    forall i, j :: 0 <= i < j < |s| ==> s[i] != s[j]
  }

  function Min(a: int, b: int): int {
    if a < b then a else b
  }

  // The first k elements, or all of them.
  function Take<T>(s: seq<T>, k: nat): seq<T> {
    s[..Min(k, |s|)]
  }

  // What Take leaves.
  function Drop<T>(s: seq<T>, k: nat): seq<T> {
    s[Min(k, |s|)..]
  }

  lemma {:induction false} DistinctCount<T>(s: seq<T>)
    requires Distinct(s)
    ensures |set x | x in s| == |s|
  {
    if s != [] {
      var n := |s| - 1;
      var rest := s[..n];
      DistinctCount(rest);
      assert (set x | x in s) == (set x | x in rest) + {s[n]};
    }
  }
}
