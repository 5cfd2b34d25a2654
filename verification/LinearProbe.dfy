/** Linear probing in a ring of slots, as khashl uses it: where keys can be, and what moves keep it so. */
module LinearProbe {
  /** The slot after i; `(i + 1) & mask` for a power of two n. */
  function Next(i: int, n: int): int {
    if i + 1 == n then 0 else i + 1
  }

  /** How many steps lead from h to j. */
  function Dist(h: int, j: int, n: int): int {
    if h <= j then j - h else j - h + n
  }

  lemma NextNearer(j: int, e: int, n: int)
    requires 0 <= j < n && 0 <= e < n && j != e
    ensures 0 <= Dist(Next(j, n), e, n) < Dist(j, e, n)
  {
  }

  function CountTrue(s: seq<bool>): (c: nat)
    ensures c <= |s|
  {
    if s == [] then 0 else CountTrue(s[..|s| - 1]) + (if s[|s| - 1] then 1 else 0)
  }

  lemma {:induction false} CountSet(s: seq<bool>, i: nat, b: bool)
    requires i < |s|
    ensures CountTrue(s[i := b]) == CountTrue(s) + (if b then 1 else 0) - (if s[i] then 1 else 0)
  {
    var m := |s| - 1;
    if i < m {
      CountSet(s[..m], i, b);
      assert s[i := b][..m] == s[..m][i := b];
    } else {
      assert s[i := b][..m] == s[..m];
    }
  }

  /** Fewer set bits than slots leave a free slot. */
  lemma {:induction false} FreeSlot(s: seq<bool>) returns (e: nat)
    requires CountTrue(s) < |s|
    ensures e < |s| && !s[e]
  {
    var m := |s| - 1;
    if s[m] {
      e := FreeSlot(s[..m]);
    } else {
      e := m;
    }
  }

  lemma {:induction false} CountNone(s: seq<bool>)
    requires forall i :: 0 <= i < |s| ==> !s[i]
    ensures CountTrue(s) == 0
  {
    if s != [] {
      CountNone(s[..|s| - 1]);
    }
  }

  /** All slots from h up to j are taken, except that `hole` may be free if `pass` is set. */
  ghost predicate ReachedBut(used: seq<bool>, h: int, j: int, hole: int, pass: bool) {
    forall k :: 0 <= k < |used| && Dist(h, k, |used|) <= Dist(h, j, |used|) ==> used[k] || (k == hole && pass)
  }

  ghost predicate Reached(used: seq<bool>, h: int, j: int) {
    ReachedBut(used, h, j, -1, false)
  }

  /** Every key can be found from its home slot without crossing a free slot. */
  ghost predicate Probed<K>(used: seq<bool>, keys: seq<K>, home: K -> int) {
    |used| <= |keys| && forall j {:trigger ProbedAt(used, keys, home, j)} ::
        0 <= j < |used| && used[j]
        ==> ProbedAt(used, keys, home, j)
  }

  ghost predicate ProbedAt<K>(used: seq<bool>, keys: seq<K>, home: K -> int, j: int)
    requires 0 <= j < |used| <= |keys|
  {
    0 <= home(keys[j]) < |used| && Reached(used, home(keys[j]), j)
  }

  ghost predicate Present<K>(used: seq<bool>, keys: seq<K>, k: K)
    requires |used| <= |keys|
  {
    exists j :: 0 <= j < |used| && used[j] && keys[j] == k
  }

  /** The used slots hold the elements of s, each once. */
  ghost predicate Stores<K>(used: seq<bool>, keys: seq<K>, s: set<K>) {
    && |used| <= |keys|
    && (forall j :: 0 <= j < |used| && used[j] ==> keys[j] in s)
    && (forall a, b :: 0 <= a < b < |used| && used[a] && used[b] ==> keys[a] != keys[b])
    && (forall k :: k in s ==> Present(used, keys, k))
  }

  /** The slots from h up to but not including i are taken by other keys. */
  ghost predicate Scanned<K>(used: seq<bool>, keys: seq<K>, h: int, i: int, key: K) {
    && |used| <= |keys| && 0 <= h < |used| && 0 <= i < |used|
    && forall k :: 0 <= k < |used| && Dist(h, k, |used|) < Dist(h, i, |used|) ==> used[k] && keys[k] != key
  }

  lemma ScanStep<K>(used: seq<bool>, keys: seq<K>, h: int, i: int, key: K)
    requires Scanned(used, keys, h, i, key) && used[i] && keys[i] != key
    ensures var i' := Next(i, |used|);
            if i' == h then forall k :: 0 <= k < |used| ==> used[k] && keys[k] != key
            else Scanned(used, keys, h, i', key) && Dist(h, i', |used|) == Dist(h, i, |used|) + 1
  {
  }

  lemma {:induction false} StoredSize<K>(used: seq<bool>, keys: seq<K>, s: set<K>)
    requires Stores(used, keys, s)
    ensures |s| == CountTrue(used)
    decreases |used|
  {
    if used == [] {
      assert forall k :: k in s ==> Present(used, keys, k);
      assert s == {};
    } else {
      var m := |used| - 1;
      var rest := if used[m] then s - {keys[m]} else s;
      forall k | k in rest ensures Present(used[..m], keys, k) {
        assert Present(used, keys, k);
        var j :| 0 <= j < |used| && used[j] && keys[j] == k;
        assert used[..m][j];
      }
      StoredSize(used[..m], keys, rest);
    }
  }

  /** The search stopped at a free slot, so the key is nowhere. */
  lemma NotBeyondFree<K>(used: seq<bool>, keys: seq<K>, home: K -> int, s: set<K>, key: K, i: int)
    requires Probed(used, keys, home) && Stores(used, keys, s) && Scanned(used, keys, home(key), i, key) && !used[i]
    ensures key !in s
  {
    forall j | 0 <= j < |used| && used[j] ensures keys[j] != key {
      assert ProbedAt(used, keys, home, j);
    }
    assert !Present(used, keys, key);
  }

  lemma NotInFull<K>(used: seq<bool>, keys: seq<K>, s: set<K>, key: K)
    requires Stores(used, keys, s) && forall k :: 0 <= k < |used| ==> keys[k] != key
    ensures key !in s
  {
    assert !Present(used, keys, key);
  }

  /** A new key goes to the first free slot after its home. */
  lemma PutKeeps<K>(used: seq<bool>, keys: seq<K>, home: K -> int, s: set<K>, key: K, i: int)
    requires Probed(used, keys, home) && Stores(used, keys, s) && key !in s
    requires Scanned(used, keys, home(key), i, key) && !used[i]
    ensures Probed(used[i := true], keys[i := key], home) && Stores(used[i := true], keys[i := key], s + {key})
  {
    var u, ks := used[i := true], keys[i := key];
    forall j | 0 <= j < |u| && u[j] ensures ProbedAt(u, ks, home, j) {
      if j != i {
        assert ProbedAt(used, keys, home, j);
      }
    }
    forall k | k in s + {key} ensures Present(u, ks, k) {
      if k == key {
        assert u[i] && ks[i] == k;
      } else {
        assert Present(used, keys, k);
        var j :| 0 <= j < |used| && used[j] && keys[j] == k;
        assert u[j] && ks[j] == k;
      }
    }
  }

  /** While deleting: slot i is free, the slots after it up to j are taken, and only keys beyond j may be cut off by
      i. */
  ghost predicate Hole<K>(used: seq<bool>, keys: seq<K>, home: K -> int, i: int, j: int) {
    && |used| <= |keys| && 0 <= i < |used| && 0 <= j < |used| && !used[i]
    && (forall k :: 0 <= k < |used| && 0 < Dist(i, k, |used|) <= Dist(i, j, |used|) ==> used[k])
    && forall x {:trigger HoleAt(used, keys, home, i, j, x)} :: 0 <= x < |used| && used[x]
        ==> HoleAt(used, keys, home, i, j, x)
  }

  ghost predicate HoleAt<K>(used: seq<bool>, keys: seq<K>, home: K -> int, i: int, j: int, x: int)
    requires 0 <= x < |used| <= |keys|
  {
    0 <= home(keys[x]) < |used| && ReachedBut(used, home(keys[x]), x, i, Dist(i, j, |used|) < Dist(i, x, |used|))
  }

  lemma HoleStart<K>(used: seq<bool>, keys: seq<K>, home: K -> int, i: int)
    requires Probed(used, keys, home) && 0 <= i < |used|
    ensures Hole(used[i := false], keys, home, i, i)
  {
    var u := used[i := false];
    forall x | 0 <= x < |u| && u[x] ensures HoleAt(u, keys, home, i, i, x) {
      assert ProbedAt(used, keys, home, x);
    }
  }

  /** The key at the next slot is reached without crossing the hole: it stays. */
  lemma HoleSkip<K>(used: seq<bool>, keys: seq<K>, home: K -> int, i: int, j: int)
    requires Hole(used, keys, home, i, j) && Next(j, |used|) != i && used[Next(j, |used|)]
    requires var j', n := Next(j, |used|), |used|; Dist(home(keys[j']), j', n) < Dist(home(keys[j']), i, n)
    ensures Hole(used, keys, home, i, Next(j, |used|))
  {
    var j' := Next(j, |used|);
    forall x | 0 <= x < |used| && used[x] ensures HoleAt(used, keys, home, i, j', x) {
      assert HoleAt(used, keys, home, i, j, x);
    }
  }

  /** The key at the next slot was looked for across the hole: it moves there and leaves a new hole. */
  lemma HoleMove<K>(used: seq<bool>, keys: seq<K>, home: K -> int, i: int, j: int)
    requires Hole(used, keys, home, i, j) && Next(j, |used|) != i && used[Next(j, |used|)]
    requires var j', n := Next(j, |used|), |used|; Dist(home(keys[j']), i, n) <= Dist(home(keys[j']), j', n)
    ensures var j' := Next(j, |used|); Hole(used[i := true][j' := false], keys[i := keys[j']], home, j', j')
  {
    var j' := Next(j, |used|);
    var u, ks := used[i := true][j' := false], keys[i := keys[j']];
    forall x | 0 <= x < |u| && u[x] ensures HoleAt(u, ks, home, j', j', x) {
      assert HoleAt(used, keys, home, i, j, j');
      if x != i {
        assert HoleAt(used, keys, home, i, j, x);
      }
    }
  }

  /** At a free slot, or back at the hole, nothing is cut off. */
  lemma HoleEnd<K>(used: seq<bool>, keys: seq<K>, home: K -> int, i: int, j: int)
    requires Hole(used, keys, home, i, j) && (Next(j, |used|) == i || !used[Next(j, |used|)])
    ensures Probed(used, keys, home)
  {
    forall x | 0 <= x < |used| && used[x] ensures ProbedAt(used, keys, home, x) {
      assert HoleAt(used, keys, home, i, j, x);
    }
  }

  lemma StoresWithout<K>(used: seq<bool>, keys: seq<K>, s: set<K>, i: int)
    requires Stores(used, keys, s) && 0 <= i < |used| && used[i]
    ensures Stores(used[i := false], keys, s - {keys[i]})
  {
    var u := used[i := false];
    forall k | k in s - {keys[i]} ensures Present(u, keys, k) {
      assert Present(used, keys, k);
      var j :| 0 <= j < |used| && used[j] && keys[j] == k;
      assert u[j];
    }
  }

  lemma StoresMoved<K>(used: seq<bool>, keys: seq<K>, s: set<K>, i: int, j: int)
    requires Stores(used, keys, s) && 0 <= i < |used| && 0 <= j < |used| && !used[i] && used[j]
    ensures Stores(used[i := true][j := false], keys[i := keys[j]], s)
  {
    var u, ks := used[i := true][j := false], keys[i := keys[j]];
    forall k | k in s ensures Present(u, ks, k) {
      assert Present(used, keys, k);
      var x :| 0 <= x < |used| && used[x] && keys[x] == k;
      assert if x == j then u[i] && ks[i] == k else u[x] && ks[x] == k;
    }
  }

  /** The state of the deletion loop, whose hole still carries its mark in `used`. */
  ghost predicate Shifting<K>(used: seq<bool>, keys: seq<K>, home: K -> int, s: set<K>, i: int, j: int) {
    0 <= i < |used| && used[i] && Hole(used[i := false], keys, home, i, j) && Stores(used[i := false], keys, s)
  }

  lemma ShiftStart<K>(used: seq<bool>, keys: seq<K>, home: K -> int, s: set<K>, i: int)
    requires Probed(used, keys, home) && Stores(used, keys, s) && 0 <= i < |used| && used[i]
    ensures Shifting(used, keys, home, s - {keys[i]}, i, i)
  {
    HoleStart(used, keys, home, i);
    StoresWithout(used, keys, s, i);
  }

  lemma ShiftMove<K>(used: seq<bool>, keys: seq<K>, home: K -> int, s: set<K>, i: int, j: int)
    requires Shifting(used, keys, home, s, i, j) && Next(j, |used|) != i && used[Next(j, |used|)]
    requires var j', n := Next(j, |used|), |used|; Dist(home(keys[j']), i, n) <= Dist(home(keys[j']), j', n)
    ensures Shifting(used, keys[i := keys[Next(j, |used|)]], home, s, Next(j, |used|), Next(j, |used|))
  {
    var j', u := Next(j, |used|), used[i := false];
    HoleMove(u, keys, home, i, j);
    StoresMoved(u, keys, s, i, j');
    assert u[i := true][j' := false] == used[j' := false];
  }

  lemma ShiftSkip<K>(used: seq<bool>, keys: seq<K>, home: K -> int, s: set<K>, i: int, j: int)
    requires Shifting(used, keys, home, s, i, j) && Next(j, |used|) != i && used[Next(j, |used|)]
    requires var j', n := Next(j, |used|), |used|; Dist(home(keys[j']), j', n) < Dist(home(keys[j']), i, n)
    ensures Shifting(used, keys, home, s, i, Next(j, |used|))
  {
    HoleSkip(used[i := false], keys, home, i, j);
  }

  lemma ShiftEnd<K>(used: seq<bool>, keys: seq<K>, home: K -> int, s: set<K>, i: int, j: int)
    requires Shifting(used, keys, home, s, i, j) && (Next(j, |used|) == i || !used[Next(j, |used|)])
    ensures Probed(used[i := false], keys, home) && Stores(used[i := false], keys, s)
  {
    HoleEnd(used[i := false], keys, home, i, j);
  }

  /** The code's test for a key at j that was looked for across slot i. */
  lemma CrossesHole(h: int, i: int, j: int, n: int)
    requires 0 <= h < n && 0 <= i < n && 0 <= j < n && i != j
    ensures (j > i && (h <= i || h > j)) || (j < i && (h <= i && h > j)) <==> Dist(h, i, n) <= Dist(h, j, n)
  {
  }

  /** During a resize: the keys at old slots not yet moved and at new slots are the elements of s, each once. */
  ghost predicate Live(used: seq<bool>, moved: seq<bool>, i: int) {
    (0 <= i < |used| && used[i]) || (0 <= i < |moved| && moved[i])
  }

  ghost predicate Somewhere<K>(used: seq<bool>, moved: seq<bool>, keys: seq<K>, k: K)
    requires |used| <= |keys| && |moved| <= |keys|
  {
    exists i :: Live(used, moved, i) && keys[i] == k
  }

  ghost predicate Shared<K>(used: seq<bool>, moved: seq<bool>, keys: seq<K>, s: set<K>) {
    && |used| <= |keys| && |moved| <= |keys|
    && (forall i :: 0 <= i < |used| && i < |moved| ==> !(used[i] && moved[i]))
    && (forall i {:trigger Live(used, moved, i)} :: Live(used, moved, i) ==> keys[i] in s)
    && (forall a, b {:trigger Live(used, moved, a), Live(used, moved, b)} ::
          a < b && Live(used, moved, a) && Live(used, moved, b) ==> keys[a] != keys[b])
    && (forall k {:trigger Somewhere(used, moved, keys, k)} :: k in s ==> Somewhere(used, moved, keys, k))
  }

  lemma ShareStart<K>(used: seq<bool>, moved: seq<bool>, keys: seq<K>, ks: seq<K>, s: set<K>)
    requires Stores(used, keys, s) && (forall i :: 0 <= i < |moved| ==> !moved[i])
    requires |used| <= |ks| && |moved| <= |ks| && forall i :: 0 <= i < |used| ==> ks[i] == keys[i]
    ensures Shared(used, moved, ks, s)
  {
    assert forall i :: Live(used, moved, i) ==> 0 <= i < |used| && used[i] && ks[i] == keys[i];
    forall k | k in s ensures Somewhere(used, moved, ks, k) {
      assert Present(used, keys, k);
      var j :| 0 <= j < |used| && used[j] && keys[j] == k;
      assert Live(used, moved, j);
    }
  }

  lemma ShareEnd<K>(used: seq<bool>, moved: seq<bool>, keys: seq<K>, ks: seq<K>, s: set<K>)
    requires Shared(used, moved, keys, s) && (forall i :: 0 <= i < |used| ==> !used[i])
    requires |ks| == |moved| && ks == keys[..|moved|]
    ensures Stores(moved, ks, s)
  {
    assert forall i :: 0 <= i < |moved| && moved[i] ==> Live(used, moved, i);
    forall k | k in s ensures Present(moved, ks, k) {
      assert Somewhere(used, moved, keys, k);
      var i :| Live(used, moved, i) && keys[i] == k;
      assert moved[i] && ks[i] == k;
    }
  }

  /** A key is taken out of its old slot. */
  lemma ShareTake<K>(used: seq<bool>, moved: seq<bool>, keys: seq<K>, s: set<K>, j: int)
    requires Shared(used, moved, keys, s) && 0 <= j < |used| && used[j]
    ensures Shared(used[j := false], moved, keys, s - {keys[j]}) && keys[j] in s
  {
    var u := used[j := false];
    assert Live(used, moved, j);
    assert forall i :: Live(u, moved, i) ==> Live(used, moved, i) && i != j;
    forall k | k in s - {keys[j]} ensures Somewhere(u, moved, keys, k) {
      assert Somewhere(used, moved, keys, k);
      var i :| Live(used, moved, i) && keys[i] == k;
      assert Live(u, moved, i);
    }
  }

  /** A key goes to a new slot whose place in the array is not an old key's. */
  lemma SharePlace<K>(used: seq<bool>, moved: seq<bool>, keys: seq<K>, s: set<K>, i: int, key: K)
    requires Shared(used, moved, keys, s) && 0 <= i < |moved| && !Live(used, moved, i) && key !in s
    ensures Shared(used, moved[i := true], keys[i := key], s + {key})
  {
    var f, ks := moved[i := true], keys[i := key];
    assert forall x :: Live(used, f, x) <==> x == i || Live(used, moved, x);
    forall k | k in s + {key} ensures Somewhere(used, f, ks, k) {
      if k == key {
        assert Live(used, f, i);
      } else {
        assert Somewhere(used, moved, keys, k);
        var x :| Live(used, moved, x) && keys[x] == k;
        assert Live(used, f, x);
      }
    }
  }
}
