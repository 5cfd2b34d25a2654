/** Stage III of SA-IS in ksa.c: bucket counting, placing the sorted LMS suffixes, and the two passes of
    induced sorting, all in place. */
module InducedSort {
  import opened Pigeonhole
  import opened SuffixOrder
  import opened InducedOrder

  const SAINT_MAX: nat := 0x7FFF_FFFF

  /** The macro `chr(i)`: in a byte text (not wide) the sentinel at position i stands for i - SAINT_MAX. */
  function Chr(T: seq<nat>, wide: bool, i: nat): int
    requires i < |T|
  {
    if wide || T[i] != 0 then T[i] else i - SAINT_MAX
  }

  ghost function Chars(T: seq<nat>, wide: bool): (c: seq<int>)
    ensures |c| == |T|
    ensures forall i :: 0 <= i < |T| ==> c[i] == Chr(T, wide, i)
  {
    seq(|T|, i requires 0 <= i < |T| => Chr(T, wide, i))
  }

  /** A text ends in a zero; a wide one (of names) has no other zero. */
  ghost predicate Symbols(T: seq<nat>, wide: bool, k: nat) {
    && 0 < |T| <= SAINT_MAX && k > 0
    && T[|T| - 1] == 0
    && (forall i :: 0 <= i < |T| ==> T[i] < k)
    && (wide ==> forall i :: 0 <= i < |T| - 1 ==> T[i] > 0)
  }

  ghost predicate NoAdjacentZeros(T: seq<nat>) {
    forall i, j :: 0 <= i < |T| && j == i + 1 && j < |T| && T[i] == 0 ==> T[j] != 0
  }

  lemma SymbolsAreText(T: seq<nat>, wide: bool, k: nat)
    requires Symbols(T, wide, k)
    ensures Text(Chars(T, wide), k)
    ensures Separated(Chars(T, wide)) <==> NoAdjacentZeros(T)
  {
    var c := Chars(T, wide);
    assert forall i :: 0 <= i < |T| ==> (c[i] <= 0 <==> T[i] == 0);
  }

  ghost function CountedIn(c: seq<int>, b: nat, n: nat): set<nat>
    requires n <= |c|
  {
    set q | q in Positions(n) && Bucket(c[q]) == b
  }

  method GetCounts(T: seq<nat>, C: array<int>, k: nat, wide: bool)
    requires C.Length >= k > 0 && |T| <= SAINT_MAX && forall i :: 0 <= i < |T| ==> T[i] < k
    modifies C
    ensures forall b: nat :: b < k ==> C[b] == |InBucket(Chars(T, wide), b)|
  {
    ghost var c := Chars(T, wide);
    for i := 0 to k
      invariant forall b :: 0 <= b < i ==> C[b] == 0
    {
      C[i] := 0;
    }
    assert forall b: nat :: CountedIn(c, b, 0) == {};
    for i := 0 to |T|
      invariant forall b: nat :: b < k ==> C[b] == |CountedIn(c, b, i)|
    {
      var x := Bucket(Chr(T, wide, i));
      CountNext(c, i);
      assert x < k;
      C[x] := C[x] + 1;
    }
    assert forall b: nat :: CountedIn(c, b, |T|) == InBucket(c, b);
  }

  lemma CountNext(c: seq<int>, i: nat)
    requires i < |c|
    ensures forall b: nat :: |CountedIn(c, b, i + 1)| == |CountedIn(c, b, i)| + if Bucket(c[i]) == b then 1 else 0
  {
    forall b: nat ensures |CountedIn(c, b, i + 1)| == |CountedIn(c, b, i)| + if Bucket(c[i]) == b then 1 else 0 {
      assert CountedIn(c, b, i + 1) == CountedIn(c, b, i) + (if Bucket(c[i]) == b then {i} else {});
    }
  }

  /** The ends or the starts of the buckets; B may be C itself. */
  method GetBuckets(ghost c: seq<int>, C: array<int>, B: array<int>, k: nat, end: bool)
    requires C.Length >= k && B.Length >= k
    requires forall b: nat :: b < k ==> C[b] == |InBucket(c, b)|
    modifies B
    ensures forall b: nat :: b < k ==> B[b] == if end then End(c, b) else Start(c, b)
    ensures C != B ==> forall b: nat :: b < k ==> C[b] == |InBucket(c, b)|
  {
    var sum := 0;
    assert Before(c, 0) == {};
    for i := 0 to k
      invariant sum == Start(c, i)
      invariant forall b: nat :: b < i ==> B[b] == if end then End(c, b) else Start(c, b)
      invariant forall b: nat :: (i <= b || C != B) && b < k ==> C[b] == |InBucket(c, b)|
    {
      BucketBounds(c, i);
      sum := sum + C[i];
      B[i] := if end then sum else sum - C[i];
    }
  }

  /** Every cursor but that of the current symbol's bucket is in B; that one is in b. Bucket 0 is unused. */
  ghost predicate Cached(cursors: seq<int>, B: seq<int>, c1: int, b: int) {
    && |B| >= |cursors| > c1
    && (forall x: nat :: 0 < x < |cursors| && x != Bucket(c1) ==> B[x] == cursors[x])
    && (c1 > 0 ==> b == cursors[c1])
  }

  /** Saves the current cursor and loads that of symbol c0. The first cursor saved is undefined, which is
      why it must not be a cursor of a bucket in use. */
  method SwitchTo(B: array<int>, c1: int, b: int, c0: int, ghost cursors: seq<int>) returns (cursor: int)
    requires |cursors| > 0 && Cached(cursors, B[..], c1, b) && c0 < |cursors|
    modifies B
    ensures Cached(cursors, B[..], c0, cursor)
  {
    cursor := b;
    if c0 != c1 {
      B[Bucket(c1)] := b;
      cursor := B[Bucket(c0)];
    }
  }

  ghost function LCursors(c: seq<int>, k: nat, i: int): (r: seq<int>)
    ensures |r| == k && forall x :: 0 <= x < k ==> r[x] == LCursor(c, x, i)
  {
    seq(k, x requires 0 <= x < k => LCursor(c, x, i))
  }

  ghost function SCursors(c: seq<int>, k: nat, i: int): (r: seq<int>)
    ensures |r| == k && forall x :: 0 <= x < k ==> r[x] == SCursor(c, x, i)
  {
    seq(k, x requires 0 <= x < k => SCursor(c, x, i))
  }

  lemma LAdvance(c: seq<int>, k: nat, p: nat, i: int)
    requires Text(c, k) && p < |c| && IsL(c, p) && p + 1 < |c| && Slot(c, p + 1) == i
    ensures 0 < c[p] < k && LCursors(c, k, i)[c[p]] == Slot(c, p)
    ensures LCursors(c, k, i + 1) == LCursors(c, k, i)[c[p] := Slot(c, p) + 1]
  {
    LTypeAfter(c, k, p);
    LCursorAt(c, k, p, i);
  }

  lemma SAdvance(c: seq<int>, k: nat, p: nat, i: int)
    requires Text(c, k) && p < |c| && IsS(c, p) && c[p] > 0 && p + 1 < |c| && Rank(c, p + 1) == i
    ensures c[p] < k && SCursors(c, k, i)[c[p]] == Rank(c, p) + 1
    ensures SCursors(c, k, i - 1) == SCursors(c, k, i)[c[p] := Rank(c, p)]
  {
    SCursorAt(c, k, p, i);
  }

  lemma LEntryByChr(c: seq<int>, k: nat, p: nat)
    requires Text(c, k) && p < |c| && IsL(c, p)
    ensures LEntry(c, p) == if 0 < p && c[p - 1] < c[p] then Not(p) else p
  {
    if p > 0 {
      TypeOfPrevious(c, k, p);
    }
  }

  lemma SEntryByChr(c: seq<int>, k: nat, p: nat)
    requires Text(c, k) && p < |c| && IsS(c, p)
    ensures SEntry(c, p) == if p == 0 || c[p - 1] > c[p] then Not(p) else p
  {
    if p > 0 {
      TypeOfPrevious(c, k, p);
    }
  }

  method Store(SA: array<int>, at: int, v: int)
    requires 0 <= at < SA.Length
    modifies SA
    ensures SA[..] == old(SA[..])[at := v]
  {
    SA[at] := v;
  }

  /** The body of the left-to-right pass for an unmarked entry j: places suffix j - 1. */
  method PlaceL(T: seq<nat>, wide: bool, SA: array<int>, B: array<int>, ghost k: nat, ghost i: nat,
                j: nat, b: int, c1: int, ghost c: seq<int>, ghost sa: seq<int>)
    returns (b': int, c1': int)
    requires c == Chars(T, wide) && Text(c, k) && SA.Length == |c| && B.Length >= k && SA != B
    requires LState(c, sa, i) && i < |c| && sa[i] == j > 0 && SA[..] == sa[i := Not(j)]
    requires Cached(LCursors(c, k, i), B[..], c1, b)
    modifies SA, B
    ensures LState(c, SA[..], i + 1)
    ensures Cached(LCursors(c, k, i + 1), B[..], c1', b')
  {
    LStepPlaces(c, k, sa, i);
    LRead(c, k, sa, i);
    var p := j - 1;
    LAdvance(c, k, p, i);
    LEntryByChr(c, k, p);
    c1' := Chr(T, wide, p);
    b' := SwitchTo(B, c1, b, c1', LCursors(c, k, i));
    Store(SA, b', if 0 < p && Chr(T, wide, p - 1) < c1' then Not(p) else p);
    b' := b' + 1;
  }

  /** `j = SA[i], SA[i] = ~j` */
  method Flip(SA: array<int>, i: nat) returns (j: int)
    requires i < SA.Length
    modifies SA
    ensures j == old(SA[i]) && SA[..] == old(SA[..])[i := Not(j)]
  {
    j := SA[i];
    SA[i] := Not(j);
  }

  /** One round of the left-to-right pass. */
  method StepL(T: seq<nat>, wide: bool, SA: array<int>, B: array<int>, ghost k: nat, i: nat, b: int, c1: int,
      ghost c: seq<int>)
    returns (b': int, c1': int)
    requires c == Chars(T, wide) && Text(c, k) && SA.Length == |c| && B.Length >= k && SA != B
    requires LState(c, SA[..], i) && i < |c|
    requires Cached(LCursors(c, k, i), B[..], c1, b)
    modifies SA, B
    ensures LState(c, SA[..], i + 1)
    ensures Cached(LCursors(c, k, i + 1), B[..], c1', b')
  {
    ghost var sa := SA[..];
    var j := Flip(SA, i);
    if 0 < j {
      b', c1' := PlaceL(T, wide, SA, B, k, i, j, b, c1, c, sa);
    } else {
      LSkip(c, k, sa, i);
      b', c1' := b, c1;
    }
  }

  /** The left-to-right pass, for L-type suffixes. */
  method InduceL(T: seq<nat>, wide: bool, SA: array<int>, B: array<int>, k: nat)
    requires Text(Chars(T, wide), k) && SA.Length == |T| && B.Length >= k && SA != B
    requires LState(Chars(T, wide), SA[..], 0)
    requires forall b: nat :: b < k ==> B[b] == Start(Chars(T, wide), b)
    modifies SA, B
    ensures LState(Chars(T, wide), SA[..], |T|)
  {
    hide *;
    ghost var c := Chars(T, wide);
    var b: int := *;
    ReadyToPassL(c, k, B[..], b);
    var c1 := -1;
    var i := 0;
    while i < |T|
      invariant 0 <= i <= |T|
      invariant LState(c, SA[..], i)
      invariant Cached(LCursors(c, k, i), B[..], c1, b)
    {
      b, c1 := StepL(T, wide, SA, B, k, i, b, c1, c);
      i := i + 1;
    }
  }

  lemma NothingPlacedL(c: seq<int>, k: nat)
    requires Text(c, k)
    ensures forall b: nat :: LCursor(c, b, 0) == Start(c, b)
  {
    forall q | 0 <= q < |c| && IsL(c, q) ensures !LPlaced(c, q, 0) {
      LTypeAfter(c, k, q);
      SlotBounds(c, k, q + 1);
    }
    assert forall b: nat :: LPlacedIn(c, b, 0) == {};
  }

  lemma NothingPlacedS(c: seq<int>, k: nat)
    requires Text(c, k)
    ensures forall b: nat {:trigger End(c, b)} :: SCursor(c, b, |c| - 1) == End(c, b)
  {
    var last := |c| - 1;
    forall q | 0 <= q < |c| ensures !SPlaced(c, q, last) {
      if q + 1 < |c| {
        RankBelow(c, q + 1);
      }
    }
    forall b: nat ensures SCursor(c, b, last) == End(c, b) {
      assert SPlacedIn(c, b, last) == {};
    }
  }

  /** The S-type suffix before the one just read goes below the cursor of its bucket. */
  lemma SStores(c: seq<int>, k: nat, sa: seq<int>, i: nat, p: nat, next: int, cursors: seq<int>, B: seq<int>, b: int)
    requires Text(c, k) && SState(c, sa, i) && End(c, 0) <= i < |c| && sa[i] == p + 1 && p < |c| && c[p] > 0
        && next == i - 1
    requires cursors == SCursors(c, k, i) && Cached(cursors, B, c[p], b)
    ensures 0 <= b - 1 < |sa| && SState(c, sa[b - 1 := if p == 0 || c[p - 1] > c[p] then Not(p) else p], next)
    ensures Cached(SCursors(c, k, next), B, c[p], b - 1)
  {
    SStepPlaces(c, k, sa, i, p);
    SAdvance(c, k, p, i);
    SEntryByChr(c, k, p);
  }

  /** Nothing is stored for a sentinel. */
  lemma SSentinel(c: seq<int>, k: nat, sa: seq<int>, i: nat, B: seq<int>, c1: int, b: int, next: int)
    requires Text(c, k) && SState(c, sa, i) && End(c, 0) <= i < |c| && 0 < sa[i] <= |c| && c[sa[i] - 1] <= 0
    requires Cached(SCursors(c, k, i), B, c1, b) && c1 <= 0 && next == i - 1
    ensures SState(c, sa, next) && Cached(SCursors(c, k, next), B, c1, b)
  {
    SStepSkips(c, k, sa, i);
    hide SState;
  }

  /** The body of the right-to-left pass for an unmarked entry j: places suffix j - 1 unless it is a sentinel. */
  method PlaceS(T: seq<nat>, wide: bool, SA: array<int>, B: array<int>, ghost k: nat, ghost i: nat,
                j: nat, b: int, c1: int, ghost c: seq<int>, ghost next: int)
    returns (b': int, c1': int)
    requires c == Chars(T, wide) && Text(c, k) && SA.Length == |c| && B.Length >= k && SA != B
    requires SState(c, SA[..], i) && End(c, 0) <= i < |c| && SA[i] == j > 0 && j <= |c|
    requires Cached(SCursors(c, k, i), B[..], c1, b)
    requires next == i - 1
    modifies SA, B
    ensures SState(c, SA[..], next)
    ensures Cached(SCursors(c, k, next), B[..], c1', b')
  {
    hide SState, Cached, SCursors, End;
    ghost var sa := SA[..];
    var p := j - 1;
    c1' := Chr(T, wide, p);
    b' := SwitchTo(B, c1, b, c1', SCursors(c, k, i));
    if c1' > 0 {
      SStores(c, k, sa, i, p, next, SCursors(c, k, i), B[..], b');
      b' := b' - 1;
      Store(SA, b', if p == 0 || Chr(T, wide, p - 1) > c1' then Not(p) else p);
    } else {
      SSentinel(c, k, sa, i, B[..], c1', b', next);
    }
  }

  /** One round of the right-to-left pass. */
  method StepS(T: seq<nat>, wide: bool, SA: array<int>, B: array<int>, ghost k: nat, i: nat, b: int, c1: int,
      ghost c: seq<int>)
    returns (b': int, c1': int, i': int)
    requires c == Chars(T, wide) && Text(c, k) && SA.Length == |c| && B.Length >= k && SA != B
    requires SState(c, SA[..], i) && i < |c|
    requires Cached(SCursors(c, k, i), B[..], c1, b)
    modifies SA, B
    ensures i' == i - 1 && SState(c, SA[..], i')
    ensures Cached(SCursors(c, k, i'), B[..], c1', b')
  {
    ghost var sa := SA[..];
    SReadBounds(c, k, sa, i);
    var j := SA[i];
    i' := i - 1;
    if 0 < j {
      b', c1' := PlaceS(T, wide, SA, B, k, i, j, b, c1, c, i');
    } else {
      SSkip(c, k, sa, i, B[..], c1, b, i');
      j := Flip(SA, i);
      b', c1' := b, c1;
    }
  }

  /** The right-to-left pass, for S-type suffixes. */
  method InduceS(T: seq<nat>, wide: bool, SA: array<int>, B: array<int>, k: nat)
    requires Text(Chars(T, wide), k) && SA.Length == |T| && B.Length >= k && SA != B
    requires SState(Chars(T, wide), SA[..], |T| - 1)
    requires forall b: nat :: b < k ==> B[b] == End(Chars(T, wide), b)
    modifies SA, B
    ensures SState(Chars(T, wide), SA[..], -1)
  {
    hide *;
    ghost var c := Chars(T, wide);
    var b: int := *;
    ReadyToPassS(c, k, B[..], b);
    var c1 := -1;
    var i := |T| - 1;
    while 0 <= i
      invariant -1 <= i < |T|
      invariant SState(c, SA[..], i)
      invariant Cached(SCursors(c, k, i), B[..], c1, b)
    {
      b, c1, i := StepS(T, wide, SA, B, k, i, b, c1, c);
    }
  }

  lemma ReadyToPassL(c: seq<int>, k: nat, B: seq<int>, undefined: int)
    requires Text(c, k) && |B| >= k && forall b: nat :: b < k ==> B[b] == Start(c, b)
    ensures Cached(LCursors(c, k, 0), B, -1, undefined)
  {
    NothingPlacedL(c, k);
  }

  lemma ReadyToPassS(c: seq<int>, k: nat, B: seq<int>, undefined: int)
    requires Text(c, k) && |B| >= k && forall b: nat :: b < k ==> B[b] == End(c, b)
    ensures Cached(SCursors(c, k, |c| - 1), B, -1, undefined)
  {
    NothingPlacedS(c, k);
  }

  lemma LSkip(c: seq<int>, k: nat, sa: seq<int>, i: nat)
    requires Text(c, k) && LState(c, sa, i) && i < |c| && sa[i] <= 0
    ensures LState(c, sa[i := Not(sa[i])], i + 1)
    ensures LCursors(c, k, i + 1) == LCursors(c, k, i)
  {
    LStepKeeps(c, k, sa, i);
  }

  lemma SSkip(c: seq<int>, k: nat, sa: seq<int>, i: nat, B: seq<int>, c1: int, b: int, next: int)
    requires Text(c, k) && SState(c, sa, i) && i < |c| && sa[i] <= 0
    requires Cached(SCursors(c, k, i), B, c1, b)
    requires next == i - 1
    ensures SState(c, sa[i := Not(sa[i])], next)
    ensures Cached(SCursors(c, k, next), B, c1, b)
  {
    SStepKeeps(c, k, sa, i);
  }

  /** The first half of induceSA. */
  method FirstPass(T: seq<nat>, wide: bool, SA: array<int>, C: array<int>, B: array<int>, k: nat, ghost c: seq<int>)
    requires c == Chars(T, wide) && Text(c, k) && Symbols(T, wide, k)
    requires SA.Length == |T| && C.Length >= k && B.Length >= k && SA != B && SA != C
    requires LState(c, SA[..], 0)
    requires C != B ==> forall b: nat :: b < k ==> C[b] == |InBucket(c, b)|
    modifies SA, C, B
    ensures LState(c, SA[..], |T|)
    ensures C != B ==> forall b: nat :: b < k ==> C[b] == |InBucket(c, b)|
  {
    if C == B {
      GetCounts(T, C, k, wide);
    }
    GetBuckets(c, C, B, k, false);
    InduceL(T, wide, SA, B, k);
  }

  /** The second half of induceSA. */
  method SecondPass(T: seq<nat>, wide: bool, SA: array<int>, C: array<int>, B: array<int>, k: nat, ghost c: seq<int>)
    requires c == Chars(T, wide) && Text(c, k) && Symbols(T, wide, k)
    requires SA.Length == |T| && C.Length >= k && B.Length >= k && SA != B && SA != C
    requires SState(c, SA[..], |T| - 1)
    requires C != B ==> forall b: nat :: b < k ==> C[b] == |InBucket(c, b)|
    modifies SA, C, B
    ensures SState(c, SA[..], -1)
  {
    if C == B {
      GetCounts(T, C, k, wide);
    }
    GetBuckets(c, C, B, k, true);
    InduceS(T, wide, SA, B, k);
  }

  /** induceSA: B may be C itself, which is why the counts are taken anew for each pass. */
  method InduceSA(T: seq<nat>, wide: bool, SA: array<int>, C: array<int>, B: array<int>, k: nat)
    requires Symbols(T, wide, k) && SA.Length == |T| && C.Length >= k && B.Length >= k && SA != B && SA != C
    requires LState(Chars(T, wide), SA[..], 0)
    requires C != B ==> forall b: nat :: b < k ==> C[b] == |InBucket(Chars(T, wide), b)|
    modifies SA, C, B
    ensures IsSuffixArray(Chars(T, wide), SA[..]) <==> NoAdjacentZeros(T)
  {
    ghost var c := Chars(T, wide);
    SymbolsAreText(T, wide, k);
    FirstPass(T, wide, SA, C, B, k, c);
    LDoneSReady(c, k, SA[..]);
    SecondPass(T, wide, SA, C, B, k, c);
    SDone(c, k, SA[..]);
  }

  /** lms lists the LMS suffixes in increasing order. */
  ghost predicate SortedLMS(c: seq<int>, lms: seq<int>) {
    && |lms| <= |c|
    && (forall x :: 0 <= x < |lms| ==> 0 <= lms[x] < |c| && IsLMS(c, lms[x]))
    && (forall x, y :: 0 <= x < y < |lms| ==> Less(c, lms[x], lms[y]))
    && (forall p :: 0 <= p < |c| && IsLMS(c, p) ==> p in lms)
  }

  /** A text with two adjacent zeros meets all that stage III is documented to need, with [1] as its sorted list; by
      StageThree it is then not sorted. */
  lemma AdjacentZerosExample()
    ensures Symbols([1, 0, 0], false, 2) && !NoAdjacentZeros([1, 0, 0])
    ensures SortedLMS(Chars([1, 0, 0], false), [1])
  {
    var c := Chars([1, 0, 0], false);
    assert [1, 0, 0][1] == 0 && [1, 0, 0][2] == 0;
    assert c[0] == 1 && c[1] == 1 - SAINT_MAX && c[2] == 2 - SAINT_MAX;
    assert IsL(c, 0) && IsLMS(c, 1) && !IsLMS(c, 2);
    assert 1 in [1];
  }

  /** A sorted LMS suffix only ever moves to the right. */
  lemma {:induction false} SlotAfterIndex(c: seq<int>, k: nat, lms: seq<int>, x: nat)
    requires Text(c, k) && SortedLMS(c, lms) && x < |lms|
    ensures x <= Slot(c, lms[x]) < |c|
  {
    SlotBounds(c, k, lms[x]);
    if x > 0 {
      SlotAfterIndex(c, k, lms, x - 1);
      SlotMonotone(c, k, lms[x - 1], lms[x]);
    }
  }

  /** The LMS suffixes of bucket b among those after index i of the list. */
  ghost function MovedIn(c: seq<int>, lms: seq<int>, b: nat, i: int): set<nat>
    requires -1 <= i < |lms|
  {
    set q | q in LMSTypes(c, b) && (q as int) in lms[i + 1..]
  }

  /** Slot s while the suffixes after index i have been moved to their slots. */
  ghost function MovingContent(c: seq<int>, lms: seq<int>, s: int, i: int): int
    requires -1 <= i < |lms|
  {
    if 0 <= s <= i then lms[s]
    else
      var o := Owner(c, s);
      if o in lms[i + 1..] then o else 0
  }

  ghost predicate Moving(c: seq<int>, lms: seq<int>, sa: seq<int>, i: int)
    requires -1 <= i < |lms|
  {
    |sa| == |c| && forall s :: 0 <= s < |sa| ==> sa[s] == MovingContent(c, lms, s, i)
  }

  lemma MoveKeeps(c: seq<int>, k: nat, lms: seq<int>, sa: seq<int>, i: nat)
    requires Text(c, k) && SortedLMS(c, lms) && i < |lms| && Moving(c, lms, sa, i)
    ensures 0 <= Slot(c, lms[i]) < |c|
    ensures Moving(c, lms, sa[i := 0][Slot(c, lms[i]) := lms[i]], i - 1)
  {
    SlotAfterIndex(c, k, lms, i);
    OwnerOfSlot(c, k, lms[i]);
    var after := sa[i := 0][Slot(c, lms[i]) := lms[i]];
    forall s | 0 <= s < |after| ensures after[s] == MovingContent(c, lms, s, i - 1) {
      MoveKeepsAt(c, k, lms, i, s);
    }
  }

  lemma MoveKeepsAt(c: seq<int>, k: nat, lms: seq<int>, i: nat, s: nat)
    requires Text(c, k) && SortedLMS(c, lms) && i < |lms| && s < |c|
    ensures s == Slot(c, lms[i]) ==> MovingContent(c, lms, s, i - 1) == lms[i]
    ensures s == i != Slot(c, lms[i]) ==> MovingContent(c, lms, s, i - 1) == 0
    ensures s != i && s != Slot(c, lms[i]) ==> MovingContent(c, lms, s, i - 1) == MovingContent(c, lms, s, i)
  {
    SlotAfterIndex(c, k, lms, i);
    OwnerOfSlot(c, k, lms[i]);
    var o := Owner(c, s);
    assert lms[i..] == [lms[i]] + lms[i + 1..];
    if s == i && o in lms[i + 1..] {
      var x :| i + 1 <= x < |lms| && lms[x] == o;
      SlotAfterIndex(c, k, lms, x);
      assert false;
    }
  }

  /** The cursor from which the next LMS suffix of a bucket is placed. */
  lemma MovedCursor(c: seq<int>, k: nat, lms: seq<int>, i: nat, b: nat)
    requires Text(c, k) && SortedLMS(c, lms) && i < |lms|
    ensures b == Bucket(c[lms[i]]) ==> |MovedIn(c, lms, b, i)| == End(c, b) - 1 - Slot(c, lms[i])
    ensures |MovedIn(c, lms, b, i - 1)| == |MovedIn(c, lms, b, i)| + if b == Bucket(c[lms[i]]) then 1 else 0
  {
    assert lms[i..] == [lms[i]] + lms[i + 1..];
    assert lms[i] !in lms[i + 1..] by {
      LessIrreflexive(c, lms[i]);
    }
    assert MovedIn(c, lms, b, i - 1) == MovedIn(c, lms, b, i) + if b == Bucket(c[lms[i]]) then {lms[i] as nat} else {};
    if b == Bucket(c[lms[i]]) {
      forall q | q in LMSTypes(c, b) ensures Less(c, lms[i], q) <==> (q as int) in lms[i + 1..] {
        AfterInList(c, k, lms, i, q);
      }
      assert MovedIn(c, lms, b, i) == LMSGreater(c, lms[i]);
    }
  }

  lemma AfterInList(c: seq<int>, k: nat, lms: seq<int>, i: nat, q: nat)
    requires Text(c, k) && SortedLMS(c, lms) && i < |lms| && q < |c| && IsLMS(c, q)
    ensures Less(c, lms[i], q) <==> (q as int) in lms[i + 1..]
  {
    var x :| 0 <= x < |lms| && lms[x] == q;
    LessIrreflexive(c, q);
    if x < i {
      LessTotal(c, k, lms[i], q);
    }
    if x > i {
      assert lms[i + 1..][x - i - 1] == q;
    }
  }

  lemma MovedAll(c: seq<int>, k: nat, lms: seq<int>, sa: seq<int>)
    requires Text(c, k) && SortedLMS(c, lms) && Moving(c, lms, sa, -1)
    ensures LState(c, sa, 0)
  {
    forall s | 0 <= s < |sa| ensures sa[s] == LContent(c, s, 0) {
      var o := Owner(c, s);
      assert lms[0..] == lms;
      if o != -1 && IsL(c, o) {
        LTypeAfter(c, k, o);
        SlotBounds(c, k, o + 1);
      }
    }
  }

  /** Moves the sorted LMS suffixes from the front of the array to the ends of their buckets. */
  method PlaceLMS(T: seq<nat>, wide: bool, SA: array<int>, B: array<int>, k: nat, m: nat)
    requires Text(Chars(T, wide), k) && SA.Length == |T| && B.Length >= k && SA != B && m <= |T|
    requires SortedLMS(Chars(T, wide), SA[..m])
    requires forall b: nat :: b < k ==> B[b] == End(Chars(T, wide), b)
    modifies SA, B
    ensures LState(Chars(T, wide), SA[..], 0)
  {
    ghost var c, lms := Chars(T, wide), SA[..m];
    for i := m to |T|
      modifies SA
      invariant SA[..m] == lms
      invariant forall s :: m <= s < i ==> SA[s] == 0
    {
      SA[i] := 0;
    }
    var i := m - 1;
    StartMoving(c, lms, SA[..], i);
    while 0 <= i
      invariant -1 <= i < m
      invariant Moving(c, lms, SA[..], i)
      invariant forall b: nat :: b < k ==> B[b] == End(c, b) - |MovedIn(c, lms, b, i)|
    {
      MoveLMS(T, wide, SA, B, k, i, lms);
      i := i - 1;
    }
    MovedAll(c, k, lms, SA[..]);
  }

  lemma StartMoving(c: seq<int>, lms: seq<int>, sa: seq<int>, last: int)
    requires |lms| <= |sa| == |c| && sa[..|lms|] == lms && last == |lms| - 1
    requires forall s :: |lms| <= s < |sa| ==> sa[s] == 0
    ensures Moving(c, lms, sa, last)
    ensures forall b: nat :: |MovedIn(c, lms, b, last)| == 0
  {
    assert forall b: nat :: MovedIn(c, lms, b, last) == {};
  }

  method MoveLMS(T: seq<nat>, wide: bool, SA: array<int>, B: array<int>, k: nat, i: nat, ghost lms: seq<int>)
    requires Text(Chars(T, wide), k) && SA.Length == |T| && B.Length >= k && SA != B
    requires SortedLMS(Chars(T, wide), lms) && i < |lms|
    requires Moving(Chars(T, wide), lms, SA[..], i)
    requires forall b: nat :: b < k ==> B[b] == End(Chars(T, wide), b) - |MovedIn(Chars(T, wide), lms, b, i)|
    modifies SA, B
    ensures Moving(Chars(T, wide), lms, SA[..], i - 1)
    ensures forall b: nat :: b < k ==> B[b] == End(Chars(T, wide), b) - |MovedIn(Chars(T, wide), lms, b, i - 1)|
  {
    ghost var c, sa := Chars(T, wide), SA[..];
    MoveKeeps(c, k, lms, sa, i);
    forall b: nat ensures |MovedIn(c, lms, b, i - 1)| == |MovedIn(c, lms, b, i)| + if b == Bucket(c[lms[i]]) then 1
        else 0
                  ensures b == Bucket(c[lms[i]]) ==> |MovedIn(c, lms, b, i)| == End(c, b) - 1 - Slot(c, lms[i]) {
      MovedCursor(c, k, lms, i, b);
    }
    var j := SA[i];
    assert j == MovingContent(c, lms, i, i) == lms[i];
    SA[i] := 0;
    var b := Bucket(Chr(T, wide, j));
    B[b] := B[b] - 1;
    SA[B[b]] := j;
    assert SA[..] == sa[i := 0][Slot(c, lms[i]) := lms[i]];
  }

  /** Stage III of SAIS_CORE: from the sorted LMS suffixes to the suffix array, which is right exactly when
      no two zeros of the text are adjacent. */
  method StageThree(T: seq<nat>, wide: bool, SA: array<int>, C: array<int>, B: array<int>, k: nat, m: nat)
    requires Symbols(T, wide, k) && SA.Length == |T| && C.Length >= k && B.Length >= k && SA != B && SA != C
    requires m <= |T| && SortedLMS(Chars(T, wide), SA[..m])
    modifies SA, C, B
    ensures IsSuffixArray(Chars(T, wide), SA[..]) <==> NoAdjacentZeros(T)
  {
    SymbolsAreText(T, wide, k);
    GetCounts(T, C, k, wide);
    GetBuckets(Chars(T, wide), C, B, k, true);
    PlaceLMS(T, wide, SA, B, k, m);
    InduceSA(T, wide, SA, C, B, k);
  }
}
