/** Suffixes of a text with several sentinels: their order, their types, and where a suffix array puts them. */
module SuffixOrder {
  import opened Pigeonhole

  /** `c > 0 ? c : 0`: sentinels are non-positive and share bucket 0. */
  function Bucket(x: int): (b: nat) {
    if x > 0 then x else 0
  }

  /** Symbols below k; the last one is a sentinel; sentinels increase with their position. */
  ghost predicate Text(c: seq<int>, k: nat) {
    && |c| > 0 && k > 0
    && c[|c| - 1] <= 0
    && (forall i :: 0 <= i < |c| ==> c[i] < k)
    && (forall i, j :: 0 <= i < j < |c| ==> SentinelsIncrease(c, i, j))
  }

  ghost predicate SentinelsIncrease(c: seq<int>, i: nat, j: nat)
    requires i < |c| && j < |c|
  {
    c[i] <= 0 && c[j] <= 0 ==> c[i] < c[j]
  }

  /** No two sentinels are adjacent. */
  ghost predicate Separated(c: seq<int>) {
    forall i, j :: 0 <= i < |c| && j == i + 1 && j < |c| && c[i] <= 0 ==> c[j] > 0
  }

  /** Suffix i comes before suffix j in lexicographic order. */
  ghost predicate Less(c: seq<int>, i: nat, j: nat)
    requires i < |c| && j < |c|
    decreases |c| - i
  {
    || c[i] < c[j]
    || (c[i] == c[j] && i != j && i + 1 < |c| && j + 1 < |c| && Less(c, i + 1, j + 1))
  }

  lemma {:induction false} LessTotal(c: seq<int>, k: nat, i: nat, j: nat)
    requires Text(c, k) && i < |c| && j < |c| && i != j
    ensures Less(c, i, j) <==> !Less(c, j, i)
    decreases |c| - i
  {
    assert if i < j then SentinelsIncrease(c, i, j) else SentinelsIncrease(c, j, i);
    if c[i] == c[j] {
      LessTotal(c, k, i + 1, j + 1);
    }
  }

  lemma {:induction false} LessTransitive(c: seq<int>, i: nat, j: nat, l: nat)
    requires i < |c| && j < |c| && l < |c|
    requires Less(c, i, j) && Less(c, j, l)
    ensures Less(c, i, l)
    decreases |c| - i
  {
    if c[i] == c[j] == c[l] {
      LessTransitive(c, i + 1, j + 1, l + 1);
      assert i != l by {
        LessIrreflexive(c, i + 1);
      }
    }
  }

  lemma {:induction false} LessIrreflexive(c: seq<int>, i: nat)
    requires i < |c|
    ensures !Less(c, i, i)
  {
  }

  /** Equal first symbols leave the comparison to the next suffixes. */
  lemma LessNext(c: seq<int>, k: nat, i: nat, j: nat)
    requires Text(c, k) && i < |c| && j < |c| && c[i] == c[j] > 0
    ensures i + 1 < |c| && j + 1 < |c|
    ensures Less(c, i, j) <==> Less(c, i + 1, j + 1)
  {
    if i == j {
      LessIrreflexive(c, i);
      LessIrreflexive(c, i + 1);
    }
  }

  /** A suffix is S-type if it is the last or smaller than the next one, and L-type otherwise. */
  ghost predicate IsS(c: seq<int>, i: nat)
    requires i < |c|
  {
    i + 1 == |c| || Less(c, i, i + 1)
  }

  ghost predicate IsL(c: seq<int>, i: nat)
    requires i < |c|
  {
    !IsS(c, i)
  }

  /** A leftmost S-type suffix. */
  ghost predicate IsLMS(c: seq<int>, i: nat)
    requires i < |c|
  {
    i > 0 && IsS(c, i) && IsL(c, i - 1)
  }

  lemma LTypeAfter(c: seq<int>, k: nat, i: nat)
    requires Text(c, k) && i < |c| && IsL(c, i)
    ensures i + 1 < |c| && Less(c, i + 1, i)
    ensures c[i] > 0
    ensures IsL(c, i + 1) || IsLMS(c, i + 1)
  {
    assert SentinelsIncrease(c, i, i + 1);
    LessTotal(c, k, i, i + 1);
  }

  /** How one comparison of symbols tells the type of the preceding suffix. */
  lemma TypeOfPrevious(c: seq<int>, k: nat, j: nat)
    requires Text(c, k) && 0 < j < |c|
    ensures IsL(c, j) ==> (IsS(c, j - 1) <==> c[j - 1] < c[j])
    ensures IsS(c, j) ==> (IsL(c, j - 1) <==> c[j - 1] > c[j])
  {
    LessTotal(c, k, j - 1, j);
  }

  /** Within a bucket, L-type suffixes come before S-type ones. */
  lemma {:induction false} LBeforeS(c: seq<int>, k: nat, p: nat, q: nat)
    requires Text(c, k) && p < |c| && q < |c|
    requires IsL(c, p) && IsS(c, q) && Bucket(c[p]) == Bucket(c[q])
    ensures Less(c, p, q)
    decreases |c| - p
  {
    LTypeAfter(c, k, p);
    assert c[p] == c[q];
    assert q + 1 < |c|;
    assert c[p + 1] <= c[p] && c[q] <= c[q + 1];
    if c[p + 1] == c[q + 1] {
      TypeOfPrevious(c, k, p + 1);
      TypeOfPrevious(c, k, q + 1);
      LBeforeS(c, k, p + 1, q + 1);
    }
  }

  lemma LessByBucket(c: seq<int>, p: nat, q: nat)
    requires p < |c| && q < |c|
    ensures Bucket(c[p]) < Bucket(c[q]) ==> Less(c, p, q)
    ensures Less(c, p, q) ==> Bucket(c[p]) <= Bucket(c[q])
  {
  }

  ghost function Positions(n: nat): set<nat> {
    Below(n)
  }

  /** The positions of smaller suffixes. */
  ghost function Smaller(c: seq<int>, p: nat): set<nat>
    requires p < |c|
  {
    set q | q in Positions(|c|) && Less(c, q, p)
  }

  /** Where the suffix array holds suffix p. */
  ghost function Rank(c: seq<int>, p: nat): nat
    requires p < |c|
  {
    |Smaller(c, p)|
  }

  lemma RankBelow(c: seq<int>, p: nat)
    requires p < |c|
    ensures Rank(c, p) < |c|
  {
    LessIrreflexive(c, p);
    assert Smaller(c, p) + {p} <= Positions(|c|);
    SubsetSize(Smaller(c, p) + {p}, Positions(|c|));
  }

  lemma RankMonotone(c: seq<int>, p: nat, q: nat)
    requires p < |c| && q < |c| && Less(c, p, q)
    ensures Rank(c, p) < Rank(c, q)
  {
    forall r | r in Smaller(c, p) ensures r in Smaller(c, q) {
      LessTransitive(c, r, p, q);
    }
    LessIrreflexive(c, p);
    assert p in Smaller(c, q) && p !in Smaller(c, p);
    SubsetSize(Smaller(c, p) + {p}, Smaller(c, q));
  }

  lemma RankOrder(c: seq<int>, k: nat, p: nat, q: nat)
    requires Text(c, k) && p < |c| && q < |c|
    ensures Rank(c, p) < Rank(c, q) <==> Less(c, p, q)
    ensures Rank(c, p) == Rank(c, q) <==> p == q
  {
    if p != q {
      LessTotal(c, k, p, q);
      if Less(c, p, q) {
        RankMonotone(c, p, q);
      } else {
        RankMonotone(c, q, p);
      }
    } else {
      LessIrreflexive(c, p);
    }
  }

  /** The array lists every suffix once, in increasing order. */
  ghost predicate IsSuffixArray(c: seq<int>, sa: seq<int>) {
    && |sa| == |c|
    && (forall s :: 0 <= s < |sa| ==> 0 <= sa[s] < |c|)
    && (forall s, t :: 0 <= s < t < |sa| ==> Less(c, sa[s], sa[t]))
    && (forall p :: 0 <= p < |c| ==> p in sa)
  }

  /** Every slot is the rank of some suffix. */
  lemma RankSurjective(c: seq<int>, k: nat, s: nat) returns (p: nat)
    requires Text(c, k) && s < |c|
    ensures p < |c| && Rank(c, p) == s
  {
    var ranks: seq<nat> := seq(|c|, i requires 0 <= i < |c| => Rank(c, i));
    forall i, j | 0 <= i < j < |ranks| ensures ranks[i] != ranks[j] {
      RankOrder(c, k, i, j);
    }
    forall i | 0 <= i < |ranks| ensures ranks[i] < |ranks| {
      RankBelow(c, i);
    }
    DistinctBelowCovers(ranks, s);
    p :| 0 <= p < |ranks| && ranks[p] == s;
  }

  lemma ByRankIsSuffixArray(c: seq<int>, k: nat, sa: seq<int>)
    requires Text(c, k) && |sa| == |c|
    requires forall p :: 0 <= p < |c| ==> Rank(c, p) < |c| && sa[Rank(c, p)] == p
    ensures IsSuffixArray(c, sa)
  {
    forall s | 0 <= s < |sa| ensures 0 <= sa[s] < |c| && Rank(c, sa[s]) == s {
      var p := RankSurjective(c, k, s);
    }
    forall s, t | 0 <= s < t < |sa| ensures Less(c, sa[s], sa[t]) {
      RankOrder(c, k, sa[s], sa[t]);
    }
    forall p | 0 <= p < |c| ensures p in sa {
      assert sa[Rank(c, p)] == p;
    }
  }

  /** Positions whose symbol lies in a bucket before b: as many as there are slots before the bucket. */
  ghost function Before(c: seq<int>, b: nat): set<nat> {
    set q | q in Positions(|c|) && Bucket(c[q]) < b
  }

  ghost function InBucket(c: seq<int>, b: nat): set<nat> {
    set q | q in Positions(|c|) && Bucket(c[q]) == b
  }

  ghost function Start(c: seq<int>, b: nat): nat {
    |Before(c, b)|
  }

  ghost function End(c: seq<int>, b: nat): nat {
    |Before(c, b + 1)|
  }

  lemma BucketBounds(c: seq<int>, b: nat)
    ensures End(c, b) == Start(c, b) + |InBucket(c, b)|
    ensures End(c, b) <= |c|
  {
    assert Before(c, b + 1) == Before(c, b) + InBucket(c, b);
    SubsetSize(Before(c, b + 1), Positions(|c|));
  }

  lemma BucketsInOrder(c: seq<int>, a: nat, b: nat)
    requires a < b
    ensures End(c, a) <= Start(c, b)
  {
    SubsetSize(Before(c, a + 1), Before(c, b));
  }

  ghost function LTypes(c: seq<int>, b: nat): set<nat> {
    set q | q in InBucket(c, b) && IsL(c, q)
  }

  ghost function STypes(c: seq<int>, b: nat): set<nat> {
    set q | q in InBucket(c, b) && IsS(c, q)
  }

  ghost function LMSTypes(c: seq<int>, b: nat): set<nat> {
    set q | q in InBucket(c, b) && IsLMS(c, q)
  }

  ghost function LSmaller(c: seq<int>, p: nat): set<nat>
    requires p < |c|
  {
    set q | q in LTypes(c, Bucket(c[p])) && Less(c, q, p)
  }

  ghost function SGreater(c: seq<int>, p: nat): set<nat>
    requires p < |c|
  {
    set q | q in STypes(c, Bucket(c[p])) && Less(c, p, q)
  }

  ghost function LMSGreater(c: seq<int>, p: nat): set<nat>
    requires p < |c|
  {
    set q | q in LMSTypes(c, Bucket(c[p])) && Less(c, p, q)
  }

  lemma RankOfL(c: seq<int>, k: nat, p: nat)
    requires Text(c, k) && p < |c| && IsL(c, p)
    ensures Rank(c, p) == Start(c, Bucket(c[p])) + |LSmaller(c, p)|
  {
    var b := Bucket(c[p]);
    forall q | q in Positions(|c|) ensures Less(c, q, p) <==> q in Before(c, b) || q in LSmaller(c, p) {
      LessByBucket(c, q, p);
      if Bucket(c[q]) == b && IsS(c, q) {
        LBeforeS(c, k, p, q);
        LessTotal(c, k, p, q);
      }
    }
    assert Smaller(c, p) == Before(c, b) + LSmaller(c, p);
  }

  lemma SplitAroundS(c: seq<int>, k: nat, p: nat, q: nat)
    requires Text(c, k) && p < |c| && q < |c| && IsS(c, p)
    ensures Bucket(c[q]) <= Bucket(c[p]) <==>
        Less(c, q, p) || q == p
        || (Bucket(c[q]) == Bucket(c[p]) && IsS(c, q) && Less(c, p, q))
    ensures !(Less(c, q, p) && Less(c, p, q)) && !Less(c, p, p)
  {
    LessByBucket(c, q, p);
    LessByBucket(c, p, q);
    LessIrreflexive(c, p);
    if q != p {
      LessTotal(c, k, p, q);
      if Bucket(c[q]) == Bucket(c[p]) && IsL(c, q) {
        LBeforeS(c, k, q, p);
      }
    }
  }

  lemma SplitBucketAroundS(c: seq<int>, k: nat, p: nat, q: nat)
    requires Text(c, k) && p < |c| && IsS(c, p)
    ensures q in Before(c, Bucket(c[p]) + 1) <==> q in Smaller(c, p) || q == p || q in SGreater(c, p)
    ensures !(q in Smaller(c, p) && q in SGreater(c, p)) && p !in Smaller(c, p) && p !in SGreater(c, p)
  {
    if q < |c| {
      SplitAroundS(c, k, p, q);
    } else {
      LessIrreflexive(c, p);
    }
  }

  lemma CountAround<T>(whole: set<T>, a: set<T>, p: T, b: set<T>)
    requires forall q :: q in whole <==> q in a || q == p || q in b
    requires p !in a && p !in b && a !! b
    ensures |whole| == |a| + 1 + |b|
  {
    assert whole == a + {p} + b;
  }

  lemma RankOfS(c: seq<int>, k: nat, p: nat)
    requires Text(c, k) && p < |c| && IsS(c, p)
    ensures Rank(c, p) + 1 + |SGreater(c, p)| == End(c, Bucket(c[p]))
  {
    forall q: nat
      ensures q in Before(c, Bucket(c[p]) + 1) <==> q in Smaller(c, p) || q == p || q in SGreater(c, p)
      ensures !(q in Smaller(c, p) && q in SGreater(c, p)) && p !in Smaller(c, p) && p !in SGreater(c, p)
    {
      SplitBucketAroundS(c, k, p, q);
    }
    CountAround(Before(c, Bucket(c[p]) + 1), Smaller(c, p), p, SGreater(c, p));
  }
}
