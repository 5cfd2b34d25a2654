/** Why induced sorting works: the slot that the left-to-right pass gives to each L-type and LMS suffix,
    and what each pass has placed when it has read part of the array. */
module InducedOrder {
  import opened Pigeonhole
  import opened SuffixOrder

  /** `~j` */
  function Not(j: int): int {
    -1 - j
  }

  /** The suffixes that the left-to-right pass reads. */
  ghost predicate Leads(c: seq<int>, p: nat)
    requires p < |c|
  {
    IsL(c, p) || IsLMS(c, p)
  }

  /** The slot that holds a leading suffix during the left-to-right pass: an L-type suffix is at its rank,
      the LMS suffixes of a bucket are packed at its end. */
  ghost function Slot(c: seq<int>, p: nat): int
    requires p < |c|
  {
    if IsL(c, p) then Start(c, Bucket(c[p])) + |LSmaller(c, p)|
    else End(c, Bucket(c[p])) - 1 - |LMSGreater(c, p)|
  }

  lemma TypesShareBucket(c: seq<int>, b: nat)
    ensures |LTypes(c, b)| + |LMSTypes(c, b)| <= End(c, b) - Start(c, b)
  {
    BucketBounds(c, b);
    assert LTypes(c, b) !! LMSTypes(c, b);
    SubsetSize(LTypes(c, b) + LMSTypes(c, b), InBucket(c, b));
  }

  lemma SlotBounds(c: seq<int>, k: nat, p: nat)
    requires Text(c, k) && p < |c| && Leads(c, p)
    ensures Start(c, Bucket(c[p])) <= Slot(c, p) < End(c, Bucket(c[p])) <= |c|
    ensures IsL(c, p) ==> Slot(c, p) < Start(c, Bucket(c[p])) + |LTypes(c, Bucket(c[p]))|
    ensures IsLMS(c, p) ==> Slot(c, p) >= End(c, Bucket(c[p])) - |LMSTypes(c, Bucket(c[p]))|
  {
    var b := Bucket(c[p]);
    TypesShareBucket(c, b);
    BucketBounds(c, b);
    LessIrreflexive(c, p);
    if IsL(c, p) {
      SubsetSize(LSmaller(c, p) + {p}, LTypes(c, b));
    } else {
      SubsetSize(LMSGreater(c, p) + {p}, LMSTypes(c, b));
    }
  }

  lemma SlotMonotoneL(c: seq<int>, p: nat, q: nat)
    requires p < |c| && q < |c| && IsL(c, p) && IsL(c, q) && Bucket(c[p]) == Bucket(c[q]) && Less(c, p, q)
    ensures Slot(c, p) < Slot(c, q)
  {
    LessIrreflexive(c, p);
    forall r | r in LSmaller(c, p) ensures r in LSmaller(c, q) {
      LessTransitive(c, r, p, q);
    }
    SubsetSize(LSmaller(c, p) + {p}, LSmaller(c, q));
  }

  lemma SlotMonotoneLMS(c: seq<int>, p: nat, q: nat)
    requires p < |c| && q < |c| && IsLMS(c, p) && IsLMS(c, q) && Bucket(c[p]) == Bucket(c[q]) && Less(c, p, q)
    ensures Slot(c, p) < Slot(c, q)
  {
    LessIrreflexive(c, q);
    forall r | r in LMSGreater(c, q) ensures r in LMSGreater(c, p) {
      LessTransitive(c, p, q, r);
    }
    SubsetSize(LMSGreater(c, q) + {q}, LMSGreater(c, p));
  }

  /** Slots follow the order of the suffixes. */
  lemma SlotMonotone(c: seq<int>, k: nat, p: nat, q: nat)
    requires Text(c, k) && p < |c| && q < |c| && Leads(c, p) && Leads(c, q) && Less(c, p, q)
    ensures Slot(c, p) < Slot(c, q)
  {
    SlotBounds(c, k, p);
    SlotBounds(c, k, q);
    LessByBucket(c, p, q);
    if Bucket(c[p]) < Bucket(c[q]) {
      BucketsInOrder(c, Bucket(c[p]), Bucket(c[q]));
    } else if IsL(c, p) && IsL(c, q) {
      SlotMonotoneL(c, p, q);
    } else if IsLMS(c, p) && IsLMS(c, q) {
      SlotMonotoneLMS(c, p, q);
    } else if IsLMS(c, p) {
      LBeforeS(c, k, q, p);
      LessTotal(c, k, p, q);
    } else {
      TypesShareBucket(c, Bucket(c[p]));
    }
  }

  lemma SlotOrder(c: seq<int>, k: nat, p: nat, q: nat)
    requires Text(c, k) && p < |c| && q < |c| && Leads(c, p) && Leads(c, q)
    ensures Slot(c, p) < Slot(c, q) <==> Less(c, p, q)
    ensures Slot(c, p) == Slot(c, q) <==> p == q
  {
    if p == q {
      LessIrreflexive(c, p);
    } else {
      LessTotal(c, k, p, q);
      if Less(c, p, q) {
        SlotMonotone(c, k, p, q);
      } else {
        SlotMonotone(c, k, q, p);
      }
    }
  }

  ghost predicate Owns(c: seq<int>, p: int, s: int) {
    0 <= p < |c| && Leads(c, p) && Slot(c, p) == s
  }

  /** The leading suffix whose slot this is, or -1. */
  ghost function Owner(c: seq<int>, s: int): (p: int)
    ensures p == -1 || Owns(c, p, s)
    ensures p == -1 ==> forall q :: !Owns(c, q, s)
  {
    if q :| Owns(c, q, s) then q else -1
  }

  lemma OwnerOfSlot(c: seq<int>, k: nat, p: nat)
    requires Text(c, k) && p < |c| && Leads(c, p)
    ensures Owner(c, Slot(c, p)) == p
  {
    assert Owns(c, p, Slot(c, p));
    SlotOrder(c, k, p, Owner(c, Slot(c, p)));
  }

  /** What the left-to-right pass stores for an L-type suffix: marked if the suffix before it is S-type. */
  ghost function LEntry(c: seq<int>, p: nat): int
    requires p < |c|
  {
    if p > 0 && IsS(c, p - 1) then Not(p) else p
  }

  /** An L-type suffix has been placed once the suffix after it has been read. */
  ghost predicate LPlaced(c: seq<int>, p: nat, i: int)
    requires p < |c|
  {
    p + 1 < |c| && Slot(c, p + 1) < i
  }

  /** The content of slot s when the left-to-right pass has read the slots before i. */
  ghost function LContent(c: seq<int>, s: int, i: int): int {
    var p := Owner(c, s);
    var v := if p == -1 then 0
             else if IsLMS(c, p) then p
             else if LPlaced(c, p, i) then LEntry(c, p) else 0;
    if s < i then Not(v) else v
  }

  ghost predicate LState(c: seq<int>, sa: seq<int>, i: int) {
    |sa| == |c| && forall s :: 0 <= s < |sa| ==> sa[s] == LContent(c, s, i)
  }

  ghost function LPlacedIn(c: seq<int>, b: nat, i: int): set<nat> {
    set q | q in LTypes(c, b) && LPlaced(c, q, i)
  }

  /** Where the next L-type suffix of bucket b will go. */
  ghost function LCursor(c: seq<int>, b: nat, i: int): int {
    Start(c, b) + |LPlacedIn(c, b, i)|
  }

  /** The cursor of a bucket stands at the slot of the suffix about to be placed, and moves past it. */
  lemma LCursorAt(c: seq<int>, k: nat, p: nat, i: int)
    requires Text(c, k) && p < |c| && IsL(c, p) && p + 1 < |c| && Slot(c, p + 1) == i
    ensures LCursor(c, Bucket(c[p]), i) == Slot(c, p)
    ensures LCursor(c, Bucket(c[p]), i + 1) == Slot(c, p) + 1
    ensures forall b: nat :: b != Bucket(c[p]) ==> LCursor(c, b, i + 1) == LCursor(c, b, i)
  {
    LPlacedAround(c, k, p, i, Bucket(c[p]));
    forall b: nat | b != Bucket(c[p]) ensures LCursor(c, b, i + 1) == LCursor(c, b, i) {
      LPlacedAround(c, k, p, i, b);
    }
  }

  lemma LPlacedAround(c: seq<int>, k: nat, p: nat, i: int, b: nat)
    requires Text(c, k) && p < |c| && IsL(c, p) && p + 1 < |c| && Slot(c, p + 1) == i
    ensures LPlacedIn(c, b, i + 1) == LPlacedIn(c, b, i) + (if b == Bucket(c[p]) then {p} else {})
    ensures p !in LPlacedIn(c, b, i)
    ensures b == Bucket(c[p]) ==> LPlacedIn(c, b, i) == LSmaller(c, p)
  {
    LessIrreflexive(c, p);
    forall q | q in LTypes(c, b)
      ensures LPlaced(c, q, i + 1) <==> LPlaced(c, q, i) || q == p
      ensures b == Bucket(c[p]) ==> (LPlaced(c, q, i) <==> Less(c, q, p))
    {
      LPlacedOther(c, k, p, q, i);
      if b == Bucket(c[p]) {
        LPlacedOrder(c, k, p, q, i);
      }
    }
  }

  lemma LPlacedOther(c: seq<int>, k: nat, p: nat, q: nat, i: int)
    requires Text(c, k) && p < |c| && q < |c| && IsL(c, p) && IsL(c, q) && p + 1 < |c| && Slot(c, p + 1) == i
    ensures q != p ==> (LPlaced(c, q, i + 1) <==> LPlaced(c, q, i))
  {
    LTypeAfter(c, k, p);
    LTypeAfter(c, k, q);
    SlotOrder(c, k, q + 1, p + 1);
  }

  lemma LPlacedOrder(c: seq<int>, k: nat, p: nat, q: nat, i: int)
    requires Text(c, k) && p < |c| && q < |c| && IsL(c, p) && IsL(c, q) && p + 1 < |c| && Slot(c, p + 1) == i
    requires Bucket(c[q]) == Bucket(c[p])
    ensures LPlaced(c, q, i) <==> Less(c, q, p)
  {
    LTypeAfter(c, k, p);
    LTypeAfter(c, k, q);
    LessNext(c, k, q, p);
    SlotOrder(c, k, q + 1, p + 1);
  }

  /** Nothing becomes placed by reading a slot that no L-type suffix precedes. */
  lemma LCursorStays(c: seq<int>, k: nat, i: int)
    requires Text(c, k)
    requires var o := Owner(c, i); o == -1 || o == 0 || IsS(c, o - 1)
    ensures forall b: nat :: LCursor(c, b, i + 1) == LCursor(c, b, i)
    ensures forall q :: 0 <= q < |c| && IsL(c, q) ==> (LPlaced(c, q, i + 1) <==> LPlaced(c, q, i))
  {
    forall q | 0 <= q < |c| && IsL(c, q) ensures LPlaced(c, q, i + 1) <==> LPlaced(c, q, i) {
      LTypeAfter(c, k, q);
      OwnerOfSlot(c, k, q + 1);
    }
    forall b: nat ensures LCursor(c, b, i + 1) == LCursor(c, b, i) {
      assert LPlacedIn(c, b, i + 1) == LPlacedIn(c, b, i);
    }
  }

  /** An L-type suffix has been placed before its own slot is read. */
  lemma LPlacedInTime(c: seq<int>, k: nat, p: nat)
    requires Text(c, k) && p < |c| && IsL(c, p)
    ensures LPlaced(c, p, Slot(c, p))
  {
    LTypeAfter(c, k, p);
    SlotOrder(c, k, p + 1, p);
  }

  /** What reading slot i of the left-to-right pass yields. */
  lemma LRead(c: seq<int>, k: nat, sa: seq<int>, i: nat)
    requires Text(c, k) && LState(c, sa, i) && i < |c|
    ensures sa[i] > 0 ==>
              var p := sa[i] - 1;
              p + 1 < |c| && IsL(c, p) && Slot(c, p + 1) == i && Owner(c, i) == p + 1
    ensures sa[i] <= 0 ==> var o := Owner(c, i); o == -1 || o == 0 || IsS(c, o - 1)
  {
    var o := Owner(c, i);
    if o != -1 && IsL(c, o) {
      LPlacedInTime(c, k, o);
    }
  }

  lemma LStepKeeps(c: seq<int>, k: nat, sa: seq<int>, i: nat)
    requires Text(c, k) && LState(c, sa, i) && i < |c| && sa[i] <= 0
    ensures LState(c, sa[i := Not(sa[i])], i + 1)
    ensures forall b: nat :: LCursor(c, b, i + 1) == LCursor(c, b, i)
  {
    LRead(c, k, sa, i);
    LCursorStays(c, k, i);
  }

  lemma LStepPlaces(c: seq<int>, k: nat, sa: seq<int>, i: nat)
    requires Text(c, k) && LState(c, sa, i) && i < |c| && sa[i] > 0
    ensures var p := sa[i] - 1;
            && p < |c| && IsL(c, p) && i < Slot(c, p) < |c|
            && LState(c, sa[i := Not(sa[i])][Slot(c, p) := LEntry(c, p)], i + 1)
  {
    LRead(c, k, sa, i);
    var p := sa[i] - 1;
    SlotBounds(c, k, p);
    LTypeAfter(c, k, p);
    SlotOrder(c, k, p + 1, p);
    OwnerOfSlot(c, k, p);
    var after := sa[i := Not(sa[i])][Slot(c, p) := LEntry(c, p)];
    forall s | 0 <= s < |after| && s != Slot(c, p) ensures after[s] == LContent(c, s, i + 1) {
      var o := Owner(c, s);
      if o != -1 && IsL(c, o) {
        LPlacedOther(c, k, p, o, i);
      }
    }
  }

  /** What the right-to-left pass stores for an S-type suffix: marked unless the suffix before it is S-type. */
  ghost function SEntry(c: seq<int>, p: nat): int
    requires p < |c|
  {
    if p == 0 || IsL(c, p - 1) then Not(p) else p
  }

  /** An S-type suffix has been placed once the suffix after it has been read. */
  ghost predicate SPlaced(c: seq<int>, p: nat, i: int)
    requires p < |c|
  {
    p + 1 < |c| && Rank(c, p + 1) > i
  }

  /** What the right-to-left pass holds at the rank of suffix p, which is not a sentinel, when it has read
      the slots after i. Nothing is said of the slot of an S-type suffix that is not placed yet. */
  ghost predicate SHolds(c: seq<int>, p: nat, v: int, i: int)
    requires p < |c|
  {
    if Rank(c, p) > i then v == p
    else if IsL(c, p) then v == Not(LEntry(c, p))
    else SPlaced(c, p, i) ==> v == SEntry(c, p)
  }

  /** What it holds in slot s of bucket 0: the LMS sentinel that the first pass found there, or 0. */
  ghost function SentinelContent(c: seq<int>, s: int, i: int): int {
    var v := if Owner(c, s) == -1 then 0 else Owner(c, s);
    if s <= i then Not(v) else v
  }

  ghost predicate SState(c: seq<int>, sa: seq<int>, i: int) {
    && |sa| == |c|
    && (forall p :: 0 <= p < |c| ==> SHoldsIn(c, sa, p, i))
    && (forall s :: 0 <= s < End(c, 0) && s < |sa| ==> sa[s] == SentinelContent(c, s, i))
  }

  ghost predicate SHoldsIn(c: seq<int>, sa: seq<int>, p: nat, i: int)
    requires p < |c|
  {
    c[p] > 0 ==> Rank(c, p) < |sa| && SHolds(c, p, sa[Rank(c, p)], i)
  }

  /** Bucket 0 holds the sentinels and nothing else. */
  lemma SentinelRanks(c: seq<int>, k: nat, p: nat)
    requires Text(c, k) && p < |c|
    ensures Rank(c, p) < End(c, 0) <==> c[p] <= 0
    ensures Rank(c, p) < |c|
  {
    RankBelow(c, p);
    if c[p] <= 0 {
      LessIrreflexive(c, p);
      forall q | q in Smaller(c, p) ensures q in Before(c, 1) {
        LessByBucket(c, q, p);
      }
      SubsetSize(Smaller(c, p) + {p}, Before(c, 1));
    } else {
      forall q | q in Before(c, 1) ensures q in Smaller(c, p) {
        LessByBucket(c, q, p);
      }
      SubsetSize(Before(c, 1), Smaller(c, p));
    }
  }

  ghost function SPlacedIn(c: seq<int>, b: nat, i: int): set<nat> {
    set q | q in STypes(c, b) && SPlaced(c, q, i)
  }

  ghost function SCursor(c: seq<int>, b: nat, i: int): int {
    End(c, b) - |SPlacedIn(c, b, i)|
  }

  lemma STypeAfter(c: seq<int>, k: nat, p: nat)
    requires Text(c, k) && p < |c| && IsS(c, p) && c[p] > 0
    ensures p + 1 < |c| && Less(c, p, p + 1) && Rank(c, p) < Rank(c, p + 1)
  {
    RankOrder(c, k, p, p + 1);
  }

  lemma SPlacedOrder(c: seq<int>, k: nat, p: nat, q: nat, i: int)
    requires Text(c, k) && p < |c| && q < |c| && IsS(c, p) && IsS(c, q) && p + 1 < |c| && Rank(c, p + 1) == i
    ensures q != p ==> (SPlaced(c, q, i - 1) <==> SPlaced(c, q, i))
    ensures Bucket(c[q]) == Bucket(c[p]) > 0 ==> (SPlaced(c, q, i) <==> Less(c, p, q))
  {
    if q + 1 < |c| {
      RankOrder(c, k, p + 1, q + 1);
      if Bucket(c[q]) == Bucket(c[p]) > 0 {
        LessNext(c, k, p, q);
      }
    }
  }

  lemma SPlacedAround(c: seq<int>, k: nat, p: nat, i: int, b: nat)
    requires Text(c, k) && p < |c| && IsS(c, p) && c[p] > 0 && p + 1 < |c| && Rank(c, p + 1) == i
    ensures SPlacedIn(c, b, i - 1) == SPlacedIn(c, b, i) + (if b == Bucket(c[p]) then {p} else {})
    ensures p !in SPlacedIn(c, b, i)
    ensures b == Bucket(c[p]) ==> SPlacedIn(c, b, i) == SGreater(c, p)
  {
    LessIrreflexive(c, p);
    forall q | q in STypes(c, b)
      ensures SPlaced(c, q, i - 1) <==> SPlaced(c, q, i) || q == p
      ensures b == Bucket(c[p]) ==> (SPlaced(c, q, i) <==> Less(c, p, q))
    {
      SPlacedOrder(c, k, p, q, i);
    }
  }

  /** The cursor of a bucket stands just after the slot of the suffix about to be placed. */
  lemma SCursorAt(c: seq<int>, k: nat, p: nat, i: int)
    requires Text(c, k) && p < |c| && IsS(c, p) && c[p] > 0 && p + 1 < |c| && Rank(c, p + 1) == i
    ensures SCursor(c, Bucket(c[p]), i) == Rank(c, p) + 1
    ensures SCursor(c, Bucket(c[p]), i - 1) == Rank(c, p)
    ensures forall b: nat :: b != Bucket(c[p]) ==> SCursor(c, b, i - 1) == SCursor(c, b, i)
  {
    RankOfS(c, k, p);
    SPlacedAround(c, k, p, i, Bucket(c[p]));
    forall b: nat | b != Bucket(c[p]) ensures SCursor(c, b, i - 1) == SCursor(c, b, i) {
      SPlacedAround(c, k, p, i, b);
    }
  }

  /** Reading slot i places no S-type suffix: slot i is in bucket 0, or the suffix of rank i does not
      follow an S-type suffix that is not a sentinel. */
  ghost predicate PlacesNone(c: seq<int>, i: int) {
    forall q :: 0 <= q < |c| && IsS(c, q) && c[q] > 0 && q + 1 < |c| ==> Rank(c, q + 1) != i
  }

  lemma SCursorStays(c: seq<int>, k: nat, i: int, b: nat)
    requires Text(c, k) && PlacesNone(c, i) && b > 0
    ensures SCursor(c, b, i - 1) == SCursor(c, b, i)
  {
    assert SPlacedIn(c, b, i - 1) == SPlacedIn(c, b, i);
  }

  lemma PlacesNoneAfter(c: seq<int>, k: nat, read: nat)
    requires Text(c, k) && read < |c|
    requires read == 0 || IsL(c, read - 1) || c[read - 1] <= 0
    ensures PlacesNone(c, Rank(c, read))
  {
    forall q | 0 <= q < |c| && IsS(c, q) && c[q] > 0 && q + 1 < |c| ensures Rank(c, q + 1) != Rank(c, read) {
      RankOrder(c, k, q + 1, read);
    }
  }

  lemma PlacesNoneInBucket0(c: seq<int>, k: nat, i: int)
    requires Text(c, k) && i < End(c, 0)
    ensures PlacesNone(c, i)
  {
    forall q | 0 <= q < |c| && IsS(c, q) && c[q] > 0 && q + 1 < |c| ensures Rank(c, q + 1) != i {
      STypeAfter(c, k, q);
      SentinelRanks(c, k, q);
    }
  }

  /** What reading slot i of the right-to-left pass yields past bucket 0: the suffix of rank i, unmarked
      just when an S-type suffix precedes it. */
  lemma SRead(c: seq<int>, k: nat, sa: seq<int>, i: nat) returns (p: nat)
    requires Text(c, k) && SState(c, sa, i) && End(c, 0) <= i < |c|
    ensures p < |c| && Rank(c, p) == i && c[p] > 0
    ensures sa[i] > 0 <==> sa[i] == p && p > 0
    ensures sa[i] > 0 ==> IsS(c, p - 1)
    ensures sa[i] <= 0 ==> sa[i] == Not(p) && (p == 0 || IsL(c, p - 1))
  {
    p := RankSurjective(c, k, i);
    SentinelRanks(c, k, p);
    assert SHoldsIn(c, sa, p, i);
    if IsS(c, p) {
      STypeAfter(c, k, p);
    }
  }

  lemma SReadBounds(c: seq<int>, k: nat, sa: seq<int>, i: nat)
    requires Text(c, k) && SState(c, sa, i) && i < |c|
    ensures sa[i] <= |c|
    ensures sa[i] > 0 ==> End(c, 0) <= i
  {
    if End(c, 0) <= i {
      var p := SRead(c, k, sa, i);
    }
  }

  /** Reading a slot that places nothing only flips its mark. */
  lemma SFlipKeeps(c: seq<int>, k: nat, sa: seq<int>, i: nat, v: int)
    requires Text(c, k) && SState(c, sa, i) && i < |c| && PlacesNone(c, i)
    requires i < End(c, 0) ==> v == Not(sa[i])
    requires forall p :: 0 <= p < |c| && c[p] > 0 && Rank(c, p) == i ==> v == p
    ensures SState(c, sa[i := v], i - 1)
    ensures forall b: nat :: b > 0 ==> SCursor(c, b, i - 1) == SCursor(c, b, i)
  {
    forall b: nat | b > 0 ensures SCursor(c, b, i - 1) == SCursor(c, b, i) {
      SCursorStays(c, k, i, b);
    }
    var after, next := sa[i := v], i - 1;
    forall q | 0 <= q < |c| ensures SHoldsIn(c, after, q, next) {
      assert SHoldsIn(c, sa, q, i);
      if c[q] > 0 && IsS(c, q) {
        STypeAfter(c, k, q);
      }
    }
  }

  lemma OnlyOfRank(c: seq<int>, k: nat, p: nat)
    requires Text(c, k) && p < |c|
    ensures forall q :: 0 <= q < |c| && Rank(c, q) == Rank(c, p) ==> q == p
  {
    forall q | 0 <= q < |c| && Rank(c, q) == Rank(c, p) ensures q == p {
      RankOrder(c, k, p, q);
    }
  }

  lemma SStepKeeps(c: seq<int>, k: nat, sa: seq<int>, i: nat)
    requires Text(c, k) && SState(c, sa, i) && i < |c| && sa[i] <= 0
    ensures SState(c, sa[i := Not(sa[i])], i - 1)
    ensures forall b: nat :: b > 0 ==> SCursor(c, b, i - 1) == SCursor(c, b, i)
  {
    if i < End(c, 0) {
      PlacesNoneInBucket0(c, k, i);
      forall p | 0 <= p < |c| && c[p] > 0 ensures Rank(c, p) != i {
        SentinelRanks(c, k, p);
      }
    } else {
      var p := SRead(c, k, sa, i);
      PlacesNoneAfter(c, k, p);
      OnlyOfRank(c, k, p);
    }
    SFlipKeeps(c, k, sa, i, Not(sa[i]));
  }

  /** A sentinel is not placed again. */
  lemma SStepSkips(c: seq<int>, k: nat, sa: seq<int>, i: nat)
    requires Text(c, k) && SState(c, sa, i) && End(c, 0) <= i < |c| && 0 < sa[i] <= |c| && c[sa[i] - 1] <= 0
    ensures SState(c, sa, i - 1)
    ensures forall b: nat :: b > 0 ==> SCursor(c, b, i - 1) == SCursor(c, b, i)
  {
    var p := SRead(c, k, sa, i);
    OnlyOfRank(c, k, p);
    PlacesNoneAfter(c, k, p);
    SFlipKeeps(c, k, sa, i, p);
    assert sa[i := p as int] == sa;
  }

  lemma SHoldsOthers(c: seq<int>, k: nat, p: nat, q: nat, v: int, i: nat)
    requires Text(c, k) && p < |c| && q < |c| && IsS(c, p) && p + 1 < |c| && Rank(c, p + 1) == i
    requires c[q] > 0 && q != p && SHolds(c, q, v, i)
    requires q == p + 1 ==> v == q
    ensures SHolds(c, q, v, i - 1)
  {
    RankOrder(c, k, p + 1, q);
    if IsS(c, q) {
      SPlacedOrder(c, k, p, q, i);
    }
  }

  lemma SStepPlaces(c: seq<int>, k: nat, sa: seq<int>, i: nat, p: nat)
    requires Text(c, k) && SState(c, sa, i) && End(c, 0) <= i < |c| && sa[i] == p + 1 && p < |c| && c[p] > 0
    ensures p + 1 < |c| && IsS(c, p) && Rank(c, p) < i && Rank(c, p + 1) == i
    ensures SState(c, sa[Rank(c, p) := SEntry(c, p)], i - 1)
  {
    var read := SRead(c, k, sa, i);
    STypeAfter(c, k, p);
    SentinelRanks(c, k, p);
    var after, next := sa[Rank(c, p) := SEntry(c, p)], i - 1;
    forall q | 0 <= q < |c| ensures SHoldsIn(c, after, q, next) {
      assert SHoldsIn(c, sa, q, i);
      RankOrder(c, k, p, q);
      if c[q] > 0 && q != p {
        SHoldsOthers(c, k, p, q, sa[Rank(c, q)], i);
      }
    }
  }

  lemma LPlacedAtEnd(c: seq<int>, k: nat, p: nat)
    requires Text(c, k) && p < |c| && IsL(c, p)
    ensures LPlaced(c, p, |c|) && 0 <= Slot(c, p) < |c| && Owner(c, Slot(c, p)) == p
  {
    LTypeAfter(c, k, p);
    SlotBounds(c, k, p + 1);
    SlotBounds(c, k, p);
    OwnerOfSlot(c, k, p);
  }

  lemma LDoneAtL(c: seq<int>, k: nat, sa: seq<int>, p: nat)
    requires Text(c, k) && LState(c, sa, |c|) && p < |c| && IsL(c, p)
    ensures Rank(c, p) < |c| && sa[Rank(c, p)] == Not(LEntry(c, p))
  {
    LPlacedAtEnd(c, k, p);
    assert sa[Slot(c, p)] == LContent(c, Slot(c, p), |c|) == Not(LEntry(c, p));
    RankOfL(c, k, p);
  }

  /** The left-to-right pass leaves what the right-to-left pass starts from. */
  lemma LDoneSReady(c: seq<int>, k: nat, sa: seq<int>)
    requires Text(c, k) && LState(c, sa, |c|)
    ensures SState(c, sa, |c| - 1)
  {
    var last := |c| - 1;
    forall p | 0 <= p < |c| ensures SHoldsIn(c, sa, p, last) {
      RankBelow(c, p);
      if IsL(c, p) {
        LDoneAtL(c, k, sa, p);
      } else if c[p] > 0 {
        STypeAfter(c, k, p);
        RankBelow(c, p + 1);
      }
    }
    forall s | 0 <= s < End(c, 0) && s < |sa| ensures sa[s] == SentinelContent(c, s, |c| - 1) {
      var o := Owner(c, s);
      if o != -1 && IsL(c, o) {
        LTypeAfter(c, k, o);
        SlotBounds(c, k, o);
        BucketsInOrder(c, 0, Bucket(c[o]));
      }
    }
  }

  lemma SentinelIsLMS(c: seq<int>, k: nat, p: nat)
    requires Text(c, k) && p < |c| && c[p] <= 0
    ensures IsS(c, p)
    ensures Separated(c) && p > 0 ==> IsLMS(c, p)
  {
    if IsL(c, p) {
      LTypeAfter(c, k, p);
    }
    if p > 0 {
      TypeOfPrevious(c, k, p);
    }
  }

  /** Separated sentinels are at their ranks: position 0 first, if it is one, then those that are LMS. */
  lemma SentinelSlot(c: seq<int>, k: nat, p: nat)
    requires Text(c, k) && Separated(c) && p < |c| && c[p] <= 0
    ensures Owner(c, Rank(c, p)) == (if p == 0 then -1 else p)
  {
    SentinelIsLMS(c, k, p);
    if p > 0 {
      assert SentinelsIncrease(c, 0, p);
      forall q | q in Positions(|c|) ensures q in SGreater(c, p) <==> q in LMSGreater(c, p) {
        if q in SGreater(c, p) {
          SentinelIsLMS(c, k, q);
          assert q != 0;
        }
      }
      assert SGreater(c, p) == LMSGreater(c, p);
      RankOfS(c, k, p);
      OwnerOfSlot(c, k, p);
    } else {
      forall q | q in Positions(|c|) ensures !Less(c, q, 0) {
        assert q > 0 ==> SentinelsIncrease(c, 0, q);
        LessIrreflexive(c, 0);
      }
      assert Smaller(c, 0) == {};
      var o := Owner(c, 0);
      if o != -1 {
        SlotIsNotFirst(c, k, o);
      }
    }
  }

  lemma SlotIsNotFirst(c: seq<int>, k: nat, o: nat)
    requires Text(c, k) && c[0] <= 0 && o < |c| && Leads(c, o)
    ensures Slot(c, o) > 0
  {
    SlotBounds(c, k, o);
    if Bucket(c[o]) > 0 {
      assert 0 in Before(c, Bucket(c[o]));
    } else {
      SentinelSlotOfLMS(c, k, o);
    }
  }

  lemma SentinelSlotOfLMS(c: seq<int>, k: nat, o: nat)
    requires Text(c, k) && c[0] <= 0 && o < |c| && Leads(c, o) && c[o] <= 0
    ensures Slot(c, o) > 0
  {
    SentinelIsLMS(c, k, o);
    LessIrreflexive(c, o);
    assert o != 0 && SentinelsIncrease(c, 0, o);
    SubsetSize(LMSGreater(c, o) + {o, 0}, Before(c, 1));
    assert |LMSGreater(c, o) + {o, 0}| == |LMSGreater(c, o)| + 2;
  }

  /** When everything has been read, every mark is undone and separated sentinels make the array sorted. */
  lemma SDoneSorted(c: seq<int>, k: nat, sa: seq<int>)
    requires Text(c, k) && SState(c, sa, -1) && Separated(c)
    ensures IsSuffixArray(c, sa)
  {
    forall p | 0 <= p < |c| ensures Rank(c, p) < |c| && sa[Rank(c, p)] == p {
      SentinelRanks(c, k, p);
      assert SHoldsIn(c, sa, p, -1);
      if c[p] <= 0 {
        SentinelSlot(c, k, p);
      }
    }
    ByRankIsSuffixArray(c, k, sa);
  }

  /** The second of two adjacent sentinels is missing from the array. */
  lemma SDoneMissing(c: seq<int>, k: nat, sa: seq<int>, x: nat)
    requires Text(c, k) && SState(c, sa, -1)
    requires 0 < x < |c| && c[x - 1] <= 0 && c[x] <= 0
    ensures (x as int) !in sa
  {
    SentinelIsLMS(c, k, x - 1);
    SentinelIsLMS(c, k, x);
    forall s | 0 <= s < |sa| ensures sa[s] != x {
      if s >= End(c, 0) {
        var p := RankSurjective(c, k, s);
        SentinelRanks(c, k, p);
        assert SHoldsIn(c, sa, p, -1);
      }
    }
  }

  /** The passes yield the suffix array exactly when no two sentinels are adjacent. */
  lemma SDone(c: seq<int>, k: nat, sa: seq<int>)
    requires Text(c, k) && SState(c, sa, -1)
    ensures IsSuffixArray(c, sa) <==> Separated(c)
  {
    if Separated(c) {
      SDoneSorted(c, k, sa);
    } else {
      var i, j :| 0 <= i < |c| && j == i + 1 && j < |c| && c[i] <= 0 && c[j] <= 0;
      SDoneMissing(c, k, sa, j);
    }
  }
}
