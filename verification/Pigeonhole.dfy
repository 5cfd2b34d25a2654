/** Counting facts shared by the hash tables and the suffix sorter. */
module Pigeonhole {
  ghost predicate Distinct<T>(s: seq<T>) {
    forall i, j :: 0 <= i < j < |s| ==> s[i] != s[j]
  }

  ghost function Elements<T>(s: seq<T>): set<T> {
    set x | x in s
  }

  ghost function Below(n: nat): (s: set<nat>)
    ensures forall i: nat {:trigger i in s} :: i in s <==> i < n
    ensures |s| == n
  {
    if n == 0 then {} else Below(n - 1) + {n - 1}
  }

  lemma {:induction false} DistinctSize<T>(s: seq<T>)
    requires Distinct(s)
    ensures |Elements(s)| == |s|
  {
    if s == [] {
      assert Elements(s) == {};
    } else {
      var m := |s| - 1;
      DistinctSize(s[..m]);
      assert s == s[..m] + [s[m]];
      assert Elements(s) == Elements(s[..m]) + {s[m]};
      assert s[m] !in Elements(s[..m]);
    }
  }

  lemma {:induction false} SubsetSize<T>(a: set<T>, b: set<T>)
    requires a <= b
    ensures |a| <= |b|
    ensures |a| == |b| ==> a == b
  {
    assert b == a + (b - a);
    assert |b| == |a| + |b - a|;
    if |a| == |b| {
      assert b - a == {};
    }
  }

  /** n distinct numbers below n are all the numbers below n. */
  lemma {:induction false} DistinctBelowCovers(s: seq<nat>, y: nat)
    requires Distinct(s)
    requires forall i :: 0 <= i < |s| ==> s[i] < |s|
    requires y < |s|
    ensures y in s
  {
    DistinctSize(s);
    SubsetSize(Elements(s), Below(|s|));
    assert y in Below(|s|);
  }
}
