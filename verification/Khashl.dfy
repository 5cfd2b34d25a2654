/** khashl: a set in an open-addressing table with linear probing, back-shift deletion and in-place resizing. */
module Khashl {
  import opened LinearProbe

  type Hash = x: int | 0 <= x < 0x1_0000_0000

  function Pow2(b: nat): (p: nat)
    ensures p > 0
  {
    if b == 0 then 1 else 2 * Pow2(b - 1)
  }

  lemma {:induction false} Pow2Sum(a: nat, b: nat)
    ensures Pow2(a + b) == Pow2(a) * Pow2(b)
  {
    if b > 0 {
      Pow2Sum(a, b - 1);
      assert Pow2(a) * Pow2(b) == 2 * (Pow2(a) * Pow2(b - 1));
    }
  }

  lemma {:induction false} Pow2Grows(a: nat, b: nat)
    requires a <= b
    ensures Pow2(a) <= Pow2(b)
  {
    if a < b {
      Pow2Grows(a, b - 1);
    }
  }

  /** __kh_h2b: the upper bits of the product with 2^32 / phi. */
  function HashToBucket(hash: Hash, bits: nat): int
    requires bits <= 32
  {
    hash * 2654435769 % 0x1_0000_0000 / Pow2(32 - bits)
  }

  lemma MulCancels(d: nat, q: int, p: int)
    requires d > 0 && d * q < d * p
    ensures q < p
  {
  }

  lemma QuotientBound(x: nat, d: nat, p: nat)
    requires d > 0 && x < d * p
    ensures 0 <= x / d < p
  {
    assert d * (x / d) <= x;
    MulCancels(d, x / d, p);
  }

  /** The bucket is the number that the upper bits of the product form. */
  lemma UpperBits(hash: Hash, bits: nat)
    requires bits <= 32
    ensures var p, d, b := hash * 2654435769 % 0x1_0000_0000, Pow2(32 - bits), HashToBucket(hash, bits);
            d * b <= p < d * b + d
  {
    var p, d := hash * 2654435769 % 0x1_0000_0000, Pow2(32 - bits);
    assert d > 0;
    assert p == d * (p / d) + p % d;
  }

  lemma Pow2Word()
    ensures Pow2(16) == 0x1_0000 && Pow2(32) == 0x1_0000_0000
  {
    assert Pow2(4) == 16;
    assert Pow2(8) == 16 * Pow2(4);
    assert Pow2(12) == 16 * Pow2(8);
    assert Pow2(16) == 16 * Pow2(12);
    Pow2Sum(16, 16);
  }

  lemma WordSplits(bits: nat)
    requires bits <= 32
    ensures Pow2(32 - bits) * Pow2(bits) == 0x1_0000_0000
  {
    Pow2Sum(32 - bits, bits);
    Pow2Word();
  }

  lemma BucketBound(hash: Hash, bits: nat)
    requires bits <= 32
    ensures 0 <= HashToBucket(hash, bits) < Pow2(bits)
  {
    WordSplits(bits);
    QuotientBound(hash * 2654435769 % 0x1_0000_0000, Pow2(32 - bits), Pow2(bits));
  }

  /** kh_max_count: three quarters of the slots. */
  function MaxCount(capacity: nat): (c: nat)
    ensures capacity > 0 ==> c < capacity
  {
    capacity / 2 + capacity / 4
  }

  /** The load limit is three quarters. */
  lemma ThreeQuarters(bits: nat)
    requires bits >= 2
    ensures 4 * MaxCount(Pow2(bits)) == 3 * Pow2(bits)
  {
    var q := Pow2(bits - 2);
    assert Pow2(bits) == 4 * q;
    hide Pow2;
    assert 4 * q / 2 == 2 * q && 4 * q / 4 == q;
  }

  function Home<K(!new)>(hash: K -> Hash, bits: nat): K -> int
    requires bits <= 32
  {
    k => HashToBucket(hash(k), bits)
  }

  /** The search for a slot that is free in the new table. */
  method FindFree(moved: array<bool>, home: nat) returns (i: nat)
    requires home < moved.Length && CountTrue(moved[..]) < moved.Length
    ensures i < moved.Length && !moved[i]
    ensures forall k :: 0 <= k < moved.Length && Dist(home, k, moved.Length) < Dist(home, i, moved.Length) ==> moved[k]
  {
    ghost var e := FreeSlot(moved[..]);
    i := home;
    while moved[i]
      invariant 0 <= i < moved.Length
      invariant forall k ::
          0 <= k < moved.Length && Dist(home, k, moved.Length) < Dist(home, i, moved.Length)
          ==> moved[k]
      decreases Dist(i, e, moved.Length)
    {
      assert i != e;
      i := Next(i, moved.Length);
      assert i != home;
    }
  }

  /** What the kick-out loop keeps: old and new slots share one array of keys. */
  ghost predicate Moving<K(!new)>(used: seq<bool>, moved: seq<bool>, keys: seq<K>, home: K -> int, s: set<K>) {
    Shared(used, moved, keys, s) && Probed(moved, keys, home)
  }

  lemma MovePlace<K(!new)>(used: seq<bool>, moved: seq<bool>, keys: seq<K>, home: K -> int, s: set<K>, i: int, key: K)
    requires Moving(used, moved, keys, home, s) && key !in s
    requires 0 <= i < |moved| && !moved[i] && !(i < |used| && used[i]) && 0 <= home(key) < |moved|
    requires forall k :: 0 <= k < |moved| && Dist(home(key), k, |moved|) < Dist(home(key), i, |moved|) ==> moved[k]
    ensures Moving(used, moved[i := true], keys[i := key], home, s + {key})
    ensures CountTrue(moved[i := true]) == CountTrue(moved) + 1
  {
    SharePlace(used, moved, keys, s, i, key);
    CountSet(moved, i, true);
    var f, ks := moved[i := true], keys[i := key];
    forall j | 0 <= j < |f| && f[j] ensures ProbedAt(f, ks, home, j) {
      if j != i {
        assert ProbedAt(moved, keys, home, j);
      }
    }
  }

  lemma MoveTake<K(!new)>(used: seq<bool>, moved: seq<bool>, keys: seq<K>, home: K -> int, s: set<K>, j: int)
    requires Moving(used, moved, keys, home, s) && 0 <= j < |used| && used[j]
    ensures keys[j] in s && Moving(used[j := false], moved, keys, home, s - {keys[j]})
    ensures CountTrue(used[j := false]) == CountTrue(used) - 1
  {
    ShareTake(used, moved, keys, s, j);
    CountSet(used, j, false);
  }

  /** All keys are at a slot, and the slots taken, old and new, are as many as before. */
  ghost predicate Settled<K(!new)>(used: seq<bool>, moved: seq<bool>, keys: seq<K>, home: K -> int, s: set<K>,
      total: nat) {
    Moving(used, moved, keys, home, s) && CountTrue(used) + CountTrue(moved) == total
  }

  /** The kick-out loop still holds `key`, which is at no slot, unless it is done. */
  ghost predicate Kicking<K(!new)>(used: seq<bool>, moved: seq<bool>, keys: seq<K>, home: K -> int, s: set<K>,
      key: K, more: bool, total: nat) {
    if more then key in s && 0 < total && Settled(used, moved, keys, home, s - {key}, total - 1)
    else Settled(used, moved, keys, home, s, total)
  }

  lemma KickKeeps<K(!new)>(used: seq<bool>, moved: seq<bool>, keys: seq<K>, home: K -> int, s: set<K>, key: K,
      total: nat, i: int)
    requires Kicking(used, moved, keys, home, s, key, true, total)
    requires 0 <= i < |moved| && !moved[i] && 0 <= home(key) < |moved|
    requires forall k :: 0 <= k < |moved| && Dist(home(key), k, |moved|) < Dist(home(key), i, |moved|) ==> moved[k]
    ensures i < |keys|
    ensures if i < |used| && used[i]
            then Kicking(used[i := false], moved[i := true], keys[i := key], home, s, keys[i], true, total)
                && CountTrue(used[i := false]) < CountTrue(used)
            else Kicking(used, moved[i := true], keys[i := key], home, s, key, false, total)
  {
    if i < |used| && used[i] {
      MoveTake(used, moved, keys, home, s - {key}, i);
      MovePlace(used[i := false], moved, keys, home, s - {key} - {keys[i]}, i, key);
      assert s - {key} - {keys[i]} + {key} == s - {keys[i]};
    } else {
      MovePlace(used, moved, keys, home, s - {key}, i, key);
      assert s - {key} + {key} == s;
    }
  }

  ghost predicate Apart<K>(used: array<bool>, moved: array<bool>, keys: array<K>) {
    used != moved && keys as object != used as object && keys as object != moved as object
  }

  method KickOnce<K(==)>(used: array<bool>, moved: array<bool>, keys: array<K>, i: nat, key: K)
      returns (next: K, more: bool)
    requires Apart(used, moved, keys) && i < moved.Length <= keys.Length && used.Length <= keys.Length
    modifies used, moved, keys
    ensures moved[..] == old(moved[..])[i := true] && keys[..] == old(keys[..])[i := key]
    ensures more == (i < used.Length && old(used[..])[i])
    ensures used[..] == if more then old(used[..])[i := false] else old(used[..])
    ensures next == if more then old(keys[i]) else key
  {
    moved[i] := true;
    more := i < used.Length && used[i];
    if more {
      next, keys[i] := keys[i], key;
      used[i] := false;
    } else {
      next := key;
      keys[i] := key;
    }
  }

  lemma KickRoom<K(!new)>(used: seq<bool>, moved: seq<bool>, keys: seq<K>, home: K -> int, s: set<K>, key: K,
      total: nat)
    requires Kicking(used, moved, keys, home, s, key, true, total) && total < |moved|
    ensures CountTrue(moved) < |moved| && |moved| <= |keys| && |used| <= |keys|
  {
  }

  ghost predicate OnlyCleared(used: seq<bool>, was: seq<bool>) {
    |used| == |was| && forall k :: 0 <= k < |used| && used[k] ==> was[k]
  }

  /** The kick-out process: a key that lands on an old key's slot sends that key on. */
  method KickOut<K(==, !new)>(used: array<bool>, moved: array<bool>, keys: array<K>, hash: K -> Hash, bits: nat,
      first: K, ghost s: set<K>, ghost total: nat)
    requires Apart(used, moved, keys) && bits <= 32 && moved.Length == Pow2(bits) && total < moved.Length
    requires Kicking(used[..], moved[..], keys[..], Home(hash, bits), s, first, true, total)
    modifies used, moved, keys
    ensures Settled(used[..], moved[..], keys[..], Home(hash, bits), s, total)
    ensures OnlyCleared(used[..], old(used[..]))
  {
    var key := first;
    var kicking := true;
    while kicking
      invariant Kicking(used[..], moved[..], keys[..], Home(hash, bits), s, key, kicking, total)
      invariant OnlyCleared(used[..], old(used[..]))
      decreases kicking, CountTrue(used[..])
    {
      KickRoom(used[..], moved[..], keys[..], Home(hash, bits), s, key, total);
      BucketBound(hash(key), bits);
      var i := FindFree(moved, HashToBucket(hash(key), bits));
      KickKeeps(used[..], moved[..], keys[..], Home(hash, bits), s, key, total, i);
      key, kicking := KickOnce(used, moved, keys, i, key);
    }
  }

  /** The number of bits of the least capacity, 4 at least, that is not below n. */
  ghost predicate IsBitsFor(n: nat, bits: nat) {
    2 <= bits && n <= Pow2(bits) && (2 < bits ==> Pow2(bits - 1) < n)
  }

  /** After j halvings n has become 2 * x or 2 * x + 1; p is 2 to the j. */
  ghost predicate Halved(n: nat, x: nat, p: nat) {
    x * (2 * p) <= n < (x + 1) * (2 * p)
  }

  lemma HalveStart(n: nat)
    ensures Halved(n, n / 2, 1)
  {
  }

  lemma HalveStep(n: nat, x: nat, p: nat)
    requires Halved(n, x, p) && x > 0
    ensures Halved(n, x / 2, 2 * p) && 2 * p <= n
  {
    var q := x / 2;
    assert q * (2 * (2 * p)) == 2 * q * (2 * p);
    assert (q + 1) * (2 * (2 * p)) == (2 * q + 2) * (2 * p);
    MulGrows(2 * p, 2 * q, x);
    MulGrows(2 * p, x + 1, 2 * q + 2);
    MulGrows(2 * p, 1, x);
  }

  lemma HalveEnd(n: nat, p: nat)
    requires Halved(n, 0, p)
    ensures n < 2 * p
  {
  }

  lemma MulGrows(d: nat, a: nat, b: nat)
    requires a <= b
    ensures a * d <= b * d
  {
  }

  /** The first lines of resize: rounding the requested number of slots up to a power of two. */
  method BitsFor(n: nat) returns (bits: nat)
    ensures IsBitsFor(n, bits)
  {
    HalveStart(n);
    var x: nat, j: nat := n / 2, 0;
    while x != 0
      invariant Halved(n, x, Pow2(j)) && (j > 0 ==> Pow2(j) <= n)
    {
      HalveStep(n, x, Pow2(j));
      x := x / 2;
      j := j + 1;
    }
    HalveEnd(n, Pow2(j));
    if n > Pow2(j) {
      j := j + 1;
    }
    bits := if j > 2 then j else 2;
    BitsRounded(n, j, bits);
  }

  lemma BitsRounded(n: nat, j: nat, bits: nat)
    requires n <= Pow2(j) && (j > 2 ==> Pow2(j - 1) < n) && bits == if j > 2 then j else 2
    ensures IsBitsFor(n, bits)
  {
    Pow2Grows(j, bits);
  }

  lemma TakeKeeps<K(!new)>(used: seq<bool>, moved: seq<bool>, keys: seq<K>, home: K -> int, s: set<K>, total: nat,
      j: nat)
    requires Settled(used, moved, keys, home, s, total) && j < |used| && used[j]
    ensures j < |keys| && Kicking(used[j := false], moved, keys, home, s, keys[j], true, total)
  {
    MoveTake(used, moved, keys, home, s, j);
  }

  /** The outer loop of resize: all keys move to the slots of the new capacity, within the same array. */
  method MoveAll<K(==, !new)>(used: array<bool>, moved: array<bool>, keys: array<K>, hash: K -> Hash, bits: nat,
      ghost s: set<K>, ghost total: nat)
    requires Apart(used, moved, keys) && bits <= 32 && moved.Length == Pow2(bits) && total < moved.Length
        && used.Length <= keys.Length
    requires Settled(used[..], moved[..], keys[..], Home(hash, bits), s, total)
    modifies used, moved, keys
    ensures Settled(used[..], moved[..], keys[..], Home(hash, bits), s, total)
    ensures forall k :: 0 <= k < used.Length ==> !used[k]
  {
    var j := 0;
    while j != used.Length
      invariant 0 <= j <= used.Length
      invariant Settled(used[..], moved[..], keys[..], Home(hash, bits), s, total)
      invariant forall k :: 0 <= k < j ==> !used[k]
    {
      if used[j] {
        TakeKeeps(used[..], moved[..], keys[..], Home(hash, bits), s, total, j);
        var key := keys[j];
        ghost var was := used[..];
        used[j] := false;
        assert used[..] == was[j := false];
        KickOut(used, moved, keys, hash, bits, key, s, total);
        assert forall k :: 0 <= k <= j ==> !used[..][k];
      }
      j := j + 1;
    }
  }

  lemma BitsBelow32(n: nat, b: nat)
    requires IsBitsFor(n, b) && n <= 0x8000_0000
    ensures b < 32
  {
    Pow2Word();
    assert Pow2(32) == 2 * Pow2(31);
    if b >= 32 {
      Pow2Grows(31, b - 1);
    }
  }

  /** Asking for one slot more than there are doubles the capacity, which leaves room for a key. */
  lemma DoublingMakesRoom(n: nat, bits: nat, b: nat, count: nat)
    requires (if n == 0 then true else n == Pow2(bits) && 2 <= bits) && IsBitsFor(n + 1, b) && count <= MaxCount(n)
    ensures count < MaxCount(Pow2(b))
  {
    if n == 0 {
      Pow2Grows(2, b);
      assert Pow2(2) == 4;
    } else {
      if b <= bits {
        Pow2Grows(b, bits);
      }
      Pow2Grows(bits + 1, b);
      Pow2Grows(2, bits);
      assert Pow2(2) == 4;
    }
  }

  /** realloc: the first n elements in an array of n. */
  method Realloc<K(0)>(a: array<K>, n: nat) returns (b: array<K>)
    ensures fresh(b) && b.Length == n
    ensures forall i :: 0 <= i < n && i < a.Length ==> b[i] == a[i]
  {
    b := new K[n];
    var i := 0;
    while i < n && i < a.Length
      invariant 0 <= i <= n && i <= a.Length
      invariant forall k :: 0 <= k < i ==> b[k] == a[k]
    {
      b[i] := a[i];
      i := i + 1;
    }
  }

  method Grow<K(0)>(keys: array<K>, cap: nat) returns (ks: array<K>)
    ensures ks == keys || fresh(ks)
    ensures ks.Length == (if keys.Length < cap then cap else keys.Length)
    ensures forall i :: 0 <= i < keys.Length ==> ks[i] == keys[i]
  {
    ks := keys;
    if keys.Length < cap {
      ks := Realloc(keys, cap);
    }
  }

  method Shrink<K(0)>(keys: array<K>, cap: nat) returns (ks: array<K>)
    requires cap <= keys.Length
    ensures ks == keys || fresh(ks)
    ensures ks.Length == cap && ks[..] == keys[..cap]
  {
    ks := keys;
    if cap < keys.Length {
      ks := Realloc(keys, cap);
    }
  }

  class Table<K(==, !new, 0)> {
    const hash: K -> Hash
    var bits: nat
    var count: nat

    /** Both arrays are empty before the first insertion. */
    var used: array<bool>
    var keys: array<K>

    /** The set that the table stands for. */
    ghost var contents: set<K>

    constructor (hash: K -> Hash)
      ensures Valid() && contents == {} && fresh(used) && fresh(keys)
    {
      this.hash, bits, count := hash, 0, 0;
      used := new bool[0];
      keys := new K[0];
      contents := {};
      new;
      assert used[..] == [] && keys[..] == [];
    }

    ghost predicate Sized()
      reads this, used, keys
    {
      && keys as object != used as object && used.Length == keys.Length
      && (if keys.Length == 0 then bits == 0 else 2 <= bits < 32 && keys.Length == Pow2(bits))
    }

    /** The keys are the elements of the set, each found by linear probing from its home slot. */
    ghost predicate Valid()
      reads this, used, keys
    {
      && Sized() && bits <= 32
      && Probed(used[..], keys[..], Home(hash, bits)) && Stores(used[..], keys[..], contents)
      && count == CountTrue(used[..]) && count <= MaxCount(keys.Length)
    }

    /** kh_getp */
    method Get(key: K) returns (i: nat)
      requires Valid()
      ensures if key in contents then i < keys.Length && used[i] && keys[i] == key else i == keys.Length
    {
      if keys.Length == 0 {
        return 0;
      }
      BucketBound(hash(key), bits);
      ghost var home := Home(hash, bits);
      i := HashToBucket(hash(key), bits);
      var last := i;
      var n := keys.Length;
      while used[i] && keys[i] != key
        invariant Scanned(used[..], keys[..], last, i, key)
        decreases n - Dist(last, i, n)
      {
        ScanStep(used[..], keys[..], last, i, key);
        i := Next(i, n);
        if i == last {
          NotInFull(used[..], keys[..], contents, key);
          return n;
        }
      }
      if !used[i] {
        NotBeyondFree(used[..], keys[..], home, contents, key, i);
        return n;
      }
    }

    /** The keys move to the slots of a new capacity, within an array that is large enough for both. */
    method Redistribute(newBits: nat) returns (moved: array<bool>, ks: array<K>)
      requires Valid() && 2 <= newBits < 32 && count <= MaxCount(Pow2(newBits))
      modifies used, keys
      ensures fresh(moved) && (ks == keys || fresh(ks)) && ks as object != moved as object
      ensures moved.Length == Pow2(newBits) <= ks.Length
      ensures Probed(moved[..], ks[..moved.Length], Home(hash, newBits))
          && Stores(moved[..], ks[..moved.Length], contents)
      ensures CountTrue(moved[..]) == count
    {
      var cap := Pow2(newBits);
      moved := new bool[cap](_ => false);
      ks := Grow(keys, cap);
      MoveStart(used[..], moved[..], keys[..], ks[..], Home(hash, newBits));
      MoveAll(used, moved, ks, hash, newBits, contents, count);
      MoveEnd(used[..], moved[..], ks[..], ks[..cap], Home(hash, newBits), contents, count);
    }

    /** The table once its keys have moved to the slots of a new capacity. */
    method Move(newBits: nat)
      requires Valid() && 2 <= newBits < 32 && count <= MaxCount(Pow2(newBits))
      modifies this`used, this`keys, this`bits, used, keys
      ensures Valid() && bits == newBits && fresh(used) && (keys == old(keys) || fresh(keys))
    {
      var moved, ks := Redistribute(newBits);
      ks := Shrink(ks, moved.Length);
      keys, used, bits := ks, moved, newBits;
    }

    lemma MoveStart(u: seq<bool>, moved: seq<bool>, ks: seq<K>, grown: seq<K>, home: K -> int)
      requires Valid() && u == used[..] && ks == keys[..] && (forall i :: 0 <= i < |moved| ==> !moved[i])
      requires |u| <= |grown| && |moved| <= |grown| && forall i :: 0 <= i < |u| ==> grown[i] == ks[i]
      ensures Settled(u, moved, grown, home, contents, count)
    {
      ShareStart(u, moved, ks, grown, contents);
      CountNone(moved);
    }

    static lemma MoveEnd(u: seq<bool>, moved: seq<bool>, ks: seq<K>, first: seq<K>, home: K -> int, s: set<K>,
        total: nat)
      requires Settled(u, moved, ks, home, s, total) && (forall i :: 0 <= i < |u| ==> !u[i])
      requires first == ks[..|moved|]
      ensures Probed(moved, first, home) && Stores(moved, first, s) && CountTrue(moved) == total
    {
      CountNone(u);
      ShareEnd(u, moved, ks, first, s);
      forall j | 0 <= j < |moved| && moved[j] ensures ProbedAt(moved, first, home, j) {
        assert ProbedAt(moved, ks, home, j);
      }
    }

    /** kh_resize; `limit` bounds the number of slots that can be allocated. */
    method Resize(n: nat, limit: nat) returns (r: int, ghost b: nat)
      requires Valid() && n <= 0x8000_0000
      modifies this`used, this`keys, this`bits, used, keys
      ensures Valid() && (used == old(used) || fresh(used)) && (keys == old(keys) || fresh(keys))
      ensures IsBitsFor(n, b)
      ensures r == if count > MaxCount(Pow2(b)) then 0 else if Pow2(b) > limit then -1 else 0
      ensures bits == if count > MaxCount(Pow2(b)) || Pow2(b) > limit then old(bits) else b
    {
      var newBits := BitsFor(n);
      BitsBelow32(n, newBits);
      b := newBits;
      if count > MaxCount(Pow2(newBits)) {
        return 0, b;
      }
      if Pow2(newBits) > limit {
        return -1, b;
      }
      Move(newBits);
      r := 0;
    }

    /** The slot where the key is or belongs. */
    method Place(key: K) returns (i: nat)
      requires Valid() && keys.Length > 0
      ensures Scanned(used[..], keys[..], HashToBucket(hash(key), bits), i, key)
      ensures used[i] ==> keys[i] == key
    {
      BucketBound(hash(key), bits);
      ghost var e := FreeSlot(used[..]);
      assert !used[e];
      i := HashToBucket(hash(key), bits);
      var last := i;
      while used[i] && keys[i] != key
        invariant Scanned(used[..], keys[..], last, i, key)
        decreases keys.Length - Dist(last, i, keys.Length)
      {
        ScanStep(used[..], keys[..], last, i, key);
        i := Next(i, keys.Length);
        if i == last {
          assert false;
          break;
        }
      }
    }

    /** The key goes to the free slot that the search ended at. */
    method Fill(i: nat, key: K)
      requires Valid() && Scanned(used[..], keys[..], HashToBucket(hash(key), bits), i, key) && !used[i]
      requires count < MaxCount(keys.Length)
      modifies this`count, this`contents, used, keys
      ensures Valid() && key !in old(contents) && contents == old(contents) + {key} && used[i] && keys[i] == key
    {
      NotBeyondFree(used[..], keys[..], Home(hash, bits), contents, key, i);
      PutKeeps(used[..], keys[..], Home(hash, bits), contents, key, i);
      CountSet(used[..], i, true);
      ghost var u, ks := used[..], keys[..];
      keys[i] := key;
      used[i] := true;
      assert used[..] == u[i := true] && keys[..] == ks[i := key];
      count := count + 1;
      contents := contents + {key};
    }

    /** kh_putp: absent is 1 for a new key, 0 for a present one, and -1 if the table is at its limit and the storage for
        the next larger one, of 2^asked slots, cannot be allocated. */
    method Put(key: K, limit: nat) returns (i: nat, absent: int, ghost asked: nat)
      requires Valid() && (bits < 31 || count < MaxCount(keys.Length))
      modifies this, used, keys
      ensures Valid()
      ensures absent == -1 || absent == 0 || absent == 1
      ensures old(count) >= MaxCount(old(keys.Length)) ==> IsBitsFor(old(keys.Length) + 1, asked)
      ensures absent == -1 <==> old(count) >= MaxCount(old(keys.Length)) && Pow2(asked) > limit
      ensures absent == -1 ==> contents == old(contents) && i == keys.Length
      ensures absent != -1 ==> contents == old(contents) + {key} && i < keys.Length && used[i] && keys[i] == key
      ensures absent != -1 ==> (absent == 1 <==> key !in old(contents))
    {
      hide Pow2;
      asked := 0;
      if count >= MaxCount(keys.Length) {
        ghost var n, old_bits := keys.Length, bits;
        CapacityBelow(n, bits);
        var r;
        r, asked := Resize(keys.Length + 1, limit);
        DoublingMakesRoom(n, old_bits, asked, count);
        if r < 0 {
          return keys.Length, -1, asked;
        }
        Pow2Grows(2, asked);
      }
      i := Place(key);
      if !used[i] {
        Fill(i, key);
        absent := 1;
      } else {
        absent := 0;
      }
    }

    lemma CapacityBelow(n: nat, b: nat)
      requires if n == 0 then true else n == Pow2(b) && b < 31
      ensures n + 1 <= 0x8000_0000
    {
      Pow2Word();
      assert Pow2(32) == 2 * Pow2(31) && Pow2(31) == 2 * Pow2(30);
      if n != 0 {
        Pow2Grows(b, 30);
      }
    }

    /** One turn of the loop below: the key at the next slot moves to the free one unless it can be found anyway. */
    method ShiftOnce(i: nat, j: nat, next: nat, ghost s: set<K>) returns (hole: nat)
      requires Sized() && bits <= 32 && Shifting(used[..], keys[..], Home(hash, bits), s, i, j)
      requires next == Next(j, keys.Length) && next < keys.Length && next != i && used[next]
      modifies keys
      ensures hole < keys.Length && used[..] == old(used[..])
      ensures Shifting(used[..], keys[..], Home(hash, bits), s, hole, next)
    {
      BucketBound(hash(keys[next]), bits);
      var k := HashToBucket(hash(keys[next]), bits);
      CrossesHole(k, i, next, keys.Length);
      if (next > i && (k <= i || k > next)) || (next < i && k <= i && k > next) {
        ShiftMove(used[..], keys[..], Home(hash, bits), s, i, j);
        ghost var u, ks := used[..], keys[..];
        keys[i] := keys[next];
        assert used[..] == u && keys[..] == ks[i := ks[next]];
        hole := next;
      } else {
        ShiftSkip(used[..], keys[..], Home(hash, bits), s, i, j);
        hole := i;
      }
    }

    /** The loop of kh_del: it returns the slot that is left over. */
    method BackShift(slot: nat) returns (i: nat)
      requires Valid() && 0 < keys.Length && slot < keys.Length && used[slot]
      modifies keys
      ensures i < keys.Length && used[..] == old(used[..]) && used[i]
      ensures Probed(used[..][i := false], keys[..], Home(hash, bits))
      ensures Stores(used[..][i := false], keys[..], contents - {old(keys[..])[slot]})
    {
      ghost var s, u := contents - {keys[slot]}, used[..];
      ghost var e := FreeSlot(u);
      ShiftStart(u, keys[..], Home(hash, bits), contents, slot);
      i := slot;
      var j := slot;
      var next := Next(j, keys.Length);
      while next != i && used[next]
        invariant used[..] == u && 0 <= j < keys.Length && used[j] && next == Next(j, keys.Length)
        invariant Shifting(u, keys[..], Home(hash, bits), s, i, j)
        decreases Dist(j, e, keys.Length)
      {
        NextNearer(j, e, keys.Length);
        i := ShiftOnce(i, j, next, s);
        j := next;
        next := Next(j, keys.Length);
      }
      ShiftEnd(u, keys[..], Home(hash, bits), s, i, j);
    }

    method Free(i: nat, ghost s: set<K>)
      requires Sized() && bits <= 32 && i < keys.Length && used[i] && count == CountTrue(used[..])
          && count <= MaxCount(keys.Length)
      requires Probed(used[..][i := false], keys[..], Home(hash, bits)) && Stores(used[..][i := false], keys[..], s)
      modifies this`count, this`contents, used
      ensures Valid() && contents == s
    {
      CountSet(used[..], i, false);
      ghost var u := used[..];
      used[i] := false;
      assert used[..] == u[i := false];
      count := count - 1;
      contents := s;
    }

    /** kh_del: the slot of a present key is freed, and later keys move back so that all are still found. */
    method Delete(slot: nat) returns (r: bool)
      requires Valid() && (keys.Length == 0 || (slot < keys.Length && used[slot]))
      modifies this`count, this`contents, used, keys
      ensures Valid() && r == (keys.Length > 0)
      ensures contents == if r then old(contents) - {old(keys[..])[slot]} else old(contents)
    {
      if keys.Length == 0 {
        return false;
      }
      ghost var s := contents - {keys[slot]};
      var hole := BackShift(slot);
      Free(hole, s);
      r := true;
    }

    /** kh_clear */
    method Clear()
      requires Valid()
      modifies this`count, this`contents, used
      ensures Valid() && contents == {}
    {
      var i := 0;
      while i < used.Length
        invariant 0 <= i <= used.Length && Sized()
        invariant forall k :: 0 <= k < i ==> !used[k]
      {
        used[i] := false;
        i := i + 1;
      }
      CountNone(used[..]);
      count := 0;
      contents := {};
    }

    /** `count` is the number of keys. */
    lemma CountIsSize()
      requires Valid()
      ensures |contents| == count
    {
      StoredSize(used[..], keys[..], contents);
    }
  }
}