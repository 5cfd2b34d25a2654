/** The blocks of kalloc: a free list sorted by address around a cycle, and cores tiled by free and live blocks. */
module FreeList {
  import opened Pigeonhole

  datatype Core = Core(start: int, units: nat)

  /** x lies on the way from h, which it is not, round to p, which it may be. */
  ghost predicate OnWay(h: int, x: int, p: int) {
    if h < p then h < x <= p else h < x || x <= p
  }

  /** b follows a in the cycle of free blocks: the next higher address, or from the highest to the lowest. */
  ghost predicate Follows(free: set<int>, a: int, b: int) {
    b in free && forall x {:trigger x in free} :: x in free && OnWay(a, x, b) ==> x == b
  }

  ghost predicate Cycle(free: set<int>, ptr: map<int, int>) {
    free <= ptr.Keys && forall a {:trigger Follows(free, a, ptr[a])} :: a in free ==> Follows(free, a, ptr[a])
  }

  lemma AnElement<T>(s: set<T>) returns (x: T)
    requires s != {}
    ensures x in s
  {
    x :| x in s;
  }

  lemma SomeElement(s: set<int>)
    requires s != {}
    ensures exists x: int :: x in s
  {
    var x := AnElement(s);
    assert x in s;
  }

  ghost function Highest(s: set<int>): (m: int)
    requires s != {}
    ensures m in s && forall x :: x in s ==> x <= m
    decreases |s|
  {
    SomeElement(s);
    var x :| x in s;
    if s == {x} then x
    else
      assert s == s - {x} + {x};
      var y := Highest(s - {x});
      assert forall z :: z in s ==> z == x || z in s - {x};
      if x < y then y else x
  }

  /** The free block after which p belongs. */
  lemma Predecessor(free: set<int>, p: int) returns (q: int)
    requires free != {} && p !in free
    ensures q in free && forall x :: x in free && x != q ==> !OnWay(q, x, p)
  {
    var below := set x | x in free && x < p;
    if below != {} {
      q := Highest(below);
      assert forall x :: x in free && x < p ==> x in below;
    } else {
      q := Highest(free);
      assert forall x :: x in free ==> x !in below;
    }
  }

  /** The free blocks on the way from q to the place of p. */
  ghost function Ahead(free: set<int>, q: int, pred: int): set<int> {
    set x | x in free && q != pred && OnWay(q, x, pred)
  }

  /** The sum of the sizes of some blocks. */
  ghost function Sum(size: map<int, nat>, s: set<int>): nat
    requires s <= size.Keys
    decreases |s|
  {
    if s == {} then 0 else
      SomeElement(s);
      var x :| x in s;
      size[x] + Sum(size, s - {x})
  }

  lemma {:induction false} SumRemove(size: map<int, nat>, s: set<int>, x: int)
    requires s <= size.Keys && x in s
    ensures Sum(size, s) == size[x] + Sum(size, s - {x})
    decreases |s|
  {
    var y :| y in s && Sum(size, s) == size[y] + Sum(size, s - {y});
    if y != x {
      SumRemove(size, s - {y}, x);
      SumRemove(size, s - {x}, y);
      assert s - {y} - {x} == s - {x} - {y};
    }
  }

  lemma {:induction false} SumSame(size: map<int, nat>, size': map<int, nat>, s: set<int>)
    requires s <= size.Keys && s <= size'.Keys && forall x :: x in s ==> size'[x] == size[x]
    ensures Sum(size', s) == Sum(size, s)
    decreases |s|
  {
    if s != {} {
      SomeElement(s);
      var x :| x in s;
      SumRemove(size, s, x);
      SumRemove(size', s, x);
      SumSame(size, size', s - {x});
    }
  }

  lemma {:induction false} SumUnion(size: map<int, nat>, a: set<int>, b: set<int>)
    requires a !! b && a <= size.Keys && b <= size.Keys
    ensures Sum(size, a + b) == Sum(size, a) + Sum(size, b)
    decreases |a|
  {
    if a == {} {
      assert a + b == b;
    } else {
      var x := AnElement(a);
      SumRemove(size, a, x);
      SumRemove(size, a + b, x);
      assert a + b - {x} == a - {x} + b;
      SumUnion(size, a - {x}, b);
    }
  }

  function CoreUnits(cores: seq<Core>): nat {
    if cores == [] then 0 else cores[0].units + CoreUnits(cores[1..])
  }

  /** Block a lies within the core, behind the core's header. */
  ghost predicate Within(c: Core, a: int, n: nat) {
    c.start < a && a + n <= c.start + c.units
  }

  ghost predicate Placed(cores: seq<Core>, a: int, n: nat) {
    exists i :: 0 <= i < |cores| && Within(cores[i], a, n)
  }

  ghost predicate Covers(size: map<int, nat>, blocks: set<int>, u: int)
    requires blocks <= size.Keys
  {
    exists a :: a in blocks && a <= u < a + size[a]
  }

  ghost predicate CoresApart(cores: seq<Core>, base: int) {
    && (forall i :: 0 <= i < |cores| ==> Clear(cores[i], base - 1, 3))
    && (forall i, j :: 0 <= i < j < |cores| ==> Clear(cores[i], cores[j].start, cores[j].units))
  }

  /** The core does not overlap the n units from `from` on. */
  ghost predicate Clear(c: Core, from: int, n: nat) {
    c.start + c.units <= from || from + n <= c.start
  }

  ghost predicate BlockAt(size: map<int, nat>, cores: seq<Core>, a: int)
    requires a in size
  {
    size[a] > 0 && Placed(cores, a, size[a])
  }

  ghost predicate ApartAt(size: map<int, nat>, a: int, b: int)
    requires a in size && b in size
  {
    a < b ==> a + size[a] <= b
  }

  ghost predicate CoveredAt(size: map<int, nat>, blocks: set<int>, cores: seq<Core>, u: int)
    requires blocks <= size.Keys
  {
    Placed(cores, u, 1) ==> Covers(size, blocks, u)
  }

  /** Each unit of a core but its header is in exactly one block. */
  ghost predicate Tiled(size: map<int, nat>, blocks: set<int>, cores: seq<Core>) {
    && blocks <= size.Keys
    && (forall a {:trigger BlockAt(size, cores, a)} :: a in blocks ==> BlockAt(size, cores, a))
    && (forall a, b {:trigger ApartAt(size, a, b)} :: a in blocks && b in blocks ==> ApartAt(size, a, b))
    && (forall u {:trigger CoveredAt(size, blocks, cores, u)} :: CoveredAt(size, blocks, cores, u))
  }

  /** No two free blocks touch. */
  ghost predicate Coalesced(size: map<int, nat>, free: set<int>) {
    free <= size.Keys && forall a {:trigger TouchesNone(size, free, a)} :: a in free ==> TouchesNone(size, free, a)
  }

  ghost predicate TouchesNone(size: map<int, nat>, free: set<int>, a: int)
    requires a in size
  {
    size[a] > 0 ==> a + size[a] !in free
  }

  ghost function Blocks(free: set<int>, live: set<int>, base: int): set<int> {
    free - {base} + live
  }

  ghost predicate Arena(size: map<int, nat>, ptr: map<int, int>, free: set<int>, live: set<int>, cores: seq<Core>,
      base: int) {
    && base in free && base in size && size[base] == 0 && free !! live
    && Cycle(free, ptr) && Tiled(size, Blocks(free, live, base), cores)
    && Coalesced(size, free) && CoresApart(cores, base)
    && Sum(size, Blocks(free, live, base)) + |cores| == CoreUnits(cores)
  }

  /** p lies between the free block q and its successor. */
  ghost predicate Gap(free: set<int>, ptr: map<int, int>, q: int, p: int) {
    q in free && q in ptr && p !in free && Follows(free, q, ptr[q]) && OnWay(q, p, ptr[q])
  }

  /** The search condition of kfree. */
  lemma GapFound(free: set<int>, ptr: map<int, int>, q: int, p: int)
    requires Cycle(free, ptr) && q in free && p !in free
    ensures Gap(free, ptr, q, p) <==> (p > q && p < ptr[q]) || (q >= ptr[q] && (p > q || p < ptr[q]))
  {
  }

  /** Until the gap is found, the free blocks still ahead become fewer. */
  lemma AheadShrinks(free: set<int>, ptr: map<int, int>, q: int, p: int, pred: int)
    requires Cycle(free, ptr) && q in free && p !in free && !Gap(free, ptr, q, p)
    requires pred in free && forall x :: x in free && x != pred ==> !OnWay(pred, x, p)
    ensures |Ahead(free, ptr[q], pred)| < |Ahead(free, q, pred)|
  {
    var n := ptr[q];
    assert Follows(free, pred, ptr[pred]);
    assert q != pred;
    assert n in Ahead(free, q, pred) && n !in Ahead(free, n, pred);
    SubsetSize(Ahead(free, n, pred), Ahead(free, q, pred));
  }

  lemma FollowsInsert(free: set<int>, q: int, p: int, n: int, a: int, b: int)
    requires Follows(free, q, n) && OnWay(q, p, n) && q in free && p !in free
    requires a in free && Follows(free, a, b) && (a == q ==> b == n)
    ensures if a == q then Follows(free + {p}, q, p) && Follows(free + {p}, p, n) else Follows(free + {p}, a, b)
  {
  }

  /** The cycle with p between q and its successor n. */
  lemma CycleInsert(free: set<int>, ptr: map<int, int>, q: int, p: int)
    requires Cycle(free, ptr) && Gap(free, ptr, q, p)
    ensures Cycle(free + {p}, ptr[p := ptr[q]][q := p])
  {
    var f, r := free + {p}, ptr[p := ptr[q]][q := p];
    forall a | a in f ensures Follows(f, a, r[a]) {
      var o := if a == p then q else a;
      assert Follows(free, o, ptr[o]);
      FollowsInsert(free, q, p, ptr[q], o, ptr[o]);
    }
  }

  lemma FollowsRemove(free: set<int>, q: int, n: int, m: int, a: int, b: int)
    requires Follows(free, q, n) && Follows(free, n, m) && q in free && n in free && n != q
    requires a in free && a != n && Follows(free, a, b) && (a == q ==> b == n)
    ensures Follows(free - {n}, a, if a == q then m else b)
  {
  }

  /** The cycle without n, the successor of q. */
  lemma CycleRemove(free: set<int>, ptr: map<int, int>, q: int, n: int)
    requires Cycle(free, ptr) && q in free && n in free && n == ptr[q] && n != q
    ensures Cycle(free - {n}, ptr[q := ptr[n]])
  {
    var f, r := free - {n}, ptr[q := ptr[n]];
    assert Follows(free, q, n) && Follows(free, n, ptr[n]);
    forall a | a in f ensures Follows(f, a, r[a]) {
      assert Follows(free, a, ptr[a]);
      FollowsRemove(free, q, n, ptr[n], a, ptr[a]);
    }
  }

  lemma OneCore(cores: seq<Core>, base: int, i: nat, j: nat, a: int, m: nat, n: nat)
    requires CoresApart(cores, base) && m > 0 && n > 0 && i < |cores| && j < |cores|
    requires Within(cores[i], a, m) && Within(cores[j], a + m, n)
    ensures i == j
  {
  }

  /** Two touching blocks in the cores are in the same core. */
  lemma MergePlaced(cores: seq<Core>, base: int, a: int, m: nat, n: nat)
    requires CoresApart(cores, base) && Placed(cores, a, m) && Placed(cores, a + m, n) && m > 0 && n > 0
    ensures Placed(cores, a, m + n)
  {
    var i :| 0 <= i < |cores| && Within(cores[i], a, m);
    var j :| 0 <= j < |cores| && Within(cores[j], a + m, n);
    OneCore(cores, base, i, j, a, m, n);
    assert Within(cores[i], a, m + n);
  }

  lemma MergeCovers(size: map<int, nat>, blocks: set<int>, a: int, b: int, u: int)
    requires blocks <= size.Keys && a in blocks && b in blocks && a != b && a + size[a] == b && Covers(size, blocks, u)
    ensures Covers(size[a := size[a] + size[b]], blocks - {b}, u)
  {
    var s, k := size[a := size[a] + size[b]], blocks - {b};
    var c :| c in blocks && c <= u < c + size[c];
    var d := if c == b then a else c;
    assert d in k && d <= u < d + s[d];
  }

  /** Two touching blocks become one. */
  lemma MergeTiled(size: map<int, nat>, blocks: set<int>, cores: seq<Core>, base: int, a: int, b: int)
    requires Tiled(size, blocks, cores) && CoresApart(cores, base) && a in blocks && b in blocks && a + size[a] == b
    ensures Tiled(size[a := size[a] + size[b]], blocks - {b}, cores)
    ensures Sum(size[a := size[a] + size[b]], blocks - {b}) == Sum(size, blocks)
  {
    var s, k := size[a := size[a] + size[b]], blocks - {b};
    assert BlockAt(size, cores, a) && BlockAt(size, cores, b);
    MergePlaced(cores, base, a, size[a], size[b]);
    forall c | c in k ensures BlockAt(s, cores, c) {
      assert BlockAt(size, cores, c);
    }
    forall c, d | c in k && d in k ensures ApartAt(s, c, d) {
      assert ApartAt(size, c, d) && ApartAt(size, b, d);
    }
    forall u ensures CoveredAt(s, k, cores, u) {
      assert CoveredAt(size, blocks, cores, u);
      if Covers(size, blocks, u) {
        MergeCovers(size, blocks, a, b, u);
      }
    }
    MergeSum(size, blocks, a, b);
  }

  lemma MergeSum(size: map<int, nat>, blocks: set<int>, a: int, b: int)
    requires blocks <= size.Keys && a in blocks && b in blocks && a != b
    ensures Sum(size[a := size[a] + size[b]], blocks - {b}) == Sum(size, blocks)
  {
    var s := size[a := size[a] + size[b]];
    SumRemove(size, blocks, b);
    SumRemove(size, blocks - {b}, a);
    SumRemove(s, blocks - {b}, a);
    SumSame(size, s, blocks - {b} - {a});
  }

  lemma SplitCovers(size: map<int, nat>, blocks: set<int>, a: int, m: nat, n: nat, u: int)
    requires blocks <= size.Keys && a in blocks && size[a] == m + n && m > 0 && a + m !in blocks
        && Covers(size, blocks, u)
    ensures Covers(size[a := m][a + m := n], blocks + {a + m}, u)
  {
    var s, k := size[a := m][a + m := n], blocks + {a + m};
    var c :| c in blocks && c <= u < c + size[c];
    var d := if c == a && a + m <= u then a + m else c;
    assert d in k && d <= u < d + s[d];
  }

  lemma SplitSum(size: map<int, nat>, blocks: set<int>, a: int, m: nat, n: nat)
    requires blocks <= size.Keys && a in blocks && size[a] == m + n && m > 0 && a + m !in blocks
    ensures Sum(size[a := m][a + m := n], blocks + {a + m}) == Sum(size, blocks)
  {
    var s, k := size[a := m][a + m := n], blocks + {a + m};
    SumRemove(s, k, a + m);
    assert k - {a + m} == blocks;
    SumRemove(s, blocks, a);
    SumRemove(size, blocks, a);
    SumSame(size, s, blocks - {a});
  }

  /** One block becomes two. */
  lemma SplitTiled(size: map<int, nat>, blocks: set<int>, cores: seq<Core>, a: int, m: nat, n: nat)
    requires Tiled(size, blocks, cores) && a in blocks && size[a] == m + n && m > 0 && n > 0
    ensures a + m !in blocks
    ensures Tiled(size[a := m][a + m := n], blocks + {a + m}, cores)
    ensures Sum(size[a := m][a + m := n], blocks + {a + m}) == Sum(size, blocks)
  {
    var b := a + m;
    var s, k := size[a := m][b := n], blocks + {b};
    assert b in blocks ==> ApartAt(size, a, b);
    assert BlockAt(size, cores, a);
    SplitPlaced(cores, a, m, n);
    forall c | c in k ensures BlockAt(s, cores, c) {
      if c != b {
        assert BlockAt(size, cores, c);
      }
    }
    forall c, d | c in k && d in k ensures ApartAt(s, c, d) {
      var c', d' := if c == b then a else c, if d == b then a else d;
      assert ApartAt(size, c', d') && ApartAt(size, a, c');
    }
    forall u ensures CoveredAt(s, k, cores, u) {
      assert CoveredAt(size, blocks, cores, u);
      if Covers(size, blocks, u) {
        SplitCovers(size, blocks, a, m, n, u);
      }
    }
    SplitSum(size, blocks, a, m, n);
  }

  lemma SplitPlaced(cores: seq<Core>, a: int, m: nat, n: nat)
    requires Placed(cores, a, m + n)
    ensures Placed(cores, a, m) && Placed(cores, a + m, n)
  {
    var i :| 0 <= i < |cores| && Within(cores[i], a, m + n);
    assert Within(cores[i], a, m) && Within(cores[i], a + m, n);
  }

  /** No block of the cores overlaps or touches the base block. */
  lemma BaseOutside(cores: seq<Core>, base: int, a: int, n: nat)
    requires CoresApart(cores, base) && Placed(cores, a, n)
    ensures a + n < base || base < a
  {
    var i :| 0 <= i < |cores| && Within(cores[i], a, n);
    assert Clear(cores[i], base - 1, 3);
  }

  /** What the free list and the blocks look like around a live block p that is about to be freed. */
  ghost predicate Freeing(size: map<int, nat>, ptr: map<int, int>, free: set<int>, live: set<int>, cores: seq<Core>,
      base: int, q: int, p: int) {
    Arena(size, ptr, free, live, cores, base) && p in live && Gap(free, ptr, q, p)
  }

  lemma OnlyLeftTouches(size: map<int, nat>, ptr: map<int, int>, free: set<int>, live: set<int>, cores: seq<Core>,
      base: int, q: int, p: int, a: int)
    requires Freeing(size, ptr, free, live, cores, base, q, p) && a in free && a != q && size[a] > 0
    ensures a + size[a] != p
  {
    var b := Blocks(free, live, base);
    assert a in b && BlockAt(size, cores, a);
    BaseOutside(cores, base, a, size[a]);
    if q != base {
      assert q in b && ApartAt(size, a, q);
    }
  }

  lemma OnlyRightTouched(size: map<int, nat>, ptr: map<int, int>, free: set<int>, live: set<int>, cores: seq<Core>,
      base: int, q: int, p: int, x: int)
    requires Freeing(size, ptr, free, live, cores, base, q, p) && x in free && p + size[p] == x
    ensures x == ptr[q] && x != base && x != q
  {
    var b, n := Blocks(free, live, base), ptr[q];
    assert p in b && BlockAt(size, cores, p);
    BaseOutside(cores, base, p, size[p]);
    if n != base {
      assert n in b && ApartAt(size, p, n);
    }
  }

  /** p is in the list, its right neighbour merged; only q may still touch it. */
  ghost predicate HalfFreed(size: map<int, nat>, ptr: map<int, int>, free: set<int>, live: set<int>,
      cores: seq<Core>, base: int, q: int, p: int) {
    && base in free && base in size && size[base] == 0 && free !! live && p in free && q in free && p != q
        && p != base && q in ptr && ptr[q] == p
    && Cycle(free, ptr) && Tiled(size, Blocks(free, live, base), cores) && CoresApart(cores, base)
    && free <= size.Keys
    && (forall a {:trigger TouchesNone(size, free, a)} :: a in free && a != q ==> TouchesNone(size, free, a))
    && (size[q] > 0 && q + size[q] in free ==> q + size[q] == p)
    && Sum(size, Blocks(free, live, base)) + |cores| == CoreUnits(cores)
  }

  lemma InsertFreed(size: map<int, nat>, ptr: map<int, int>, free: set<int>, live: set<int>, cores: seq<Core>,
      base: int, q: int, p: int)
    requires Freeing(size, ptr, free, live, cores, base, q, p)
    ensures Cycle(free + {p}, ptr[p := ptr[q]][q := p])
    ensures Blocks(free + {p}, live - {p}, base) == Blocks(free, live, base)
    ensures free + {p} !! live - {p} && p != base && p in size
  {
    CycleInsert(free, ptr, q, p);
    assert p in Blocks(free, live, base) && BlockAt(size, cores, p);
    BaseOutside(cores, base, p, size[p]);
  }

  /** The right neighbour does not touch: p just becomes free. */
  lemma FreeNoRight(size: map<int, nat>, ptr: map<int, int>, free: set<int>, live: set<int>, cores: seq<Core>,
      base: int, q: int, p: int)
    requires Freeing(size, ptr, free, live, cores, base, q, p) && p in size && p + size[p] != ptr[q]
    ensures HalfFreed(size, ptr[p := ptr[q]][q := p], free + {p}, live - {p}, cores, base, q, p)
  {
    InsertFreed(size, ptr, free, live, cores, base, q, p);
    forall a | a in free + {p} && a != q ensures TouchesNone(size, free + {p}, a) {
      if a == p {
        if p + size[p] in free {
          OnlyRightTouched(size, ptr, free, live, cores, base, q, p, p + size[p]);
        }
      } else {
        assert TouchesNone(size, free, a);
        if size[a] > 0 {
          OnlyLeftTouches(size, ptr, free, live, cores, base, q, p, a);
        }
      }
    }
    assert TouchesNone(size, free, q);
  }

  lemma FreeRightLinks(ptr: map<int, int>, free: set<int>, q: int, p: int, n: int)
    requires Cycle(free + {p}, ptr[p := n][q := p]) && q in free && p !in free && n in free && n != q && q in ptr
        && n in ptr
    ensures Cycle(free + {p} - {n}, ptr[p := ptr[n]][q := p])
  {
    CycleRemove(free + {p}, ptr[p := n][q := p], p, n);
    assert ptr[p := n][q := p][p := ptr[n]] == ptr[p := ptr[n]][q := p];
  }

  lemma FreeRightTouch(size: map<int, nat>, ptr: map<int, int>, free: set<int>, live: set<int>, cores: seq<Core>,
      base: int, q: int, p: int, a: int)
    requires Freeing(size, ptr, free, live, cores, base, q, p) && p in size && p + size[p] == ptr[q]
    requires a in free + {p} - {ptr[q]}
    ensures ptr[q] in free && ptr[q] in size
    ensures a != q ==> TouchesNone(size[p := size[p] + size[ptr[q]]], free + {p} - {ptr[q]}, a)
    ensures a == q && size[q] > 0 && q + size[q] in free + {p} - {ptr[q]} ==> q + size[q] == p
  {
    var n := ptr[q];
    assert TouchesNone(size, free, n);
    if a == p {
      assert n in Blocks(free, live, base) by {
        OnlyRightTouched(size, ptr, free, live, cores, base, q, p, n);
      }
      assert BlockAt(size, cores, n);
    } else {
      assert TouchesNone(size, free, a);
      if a != q && size[a] > 0 {
        OnlyLeftTouches(size, ptr, free, live, cores, base, q, p, a);
      }
    }
  }

  /** The right neighbour touches: it becomes part of p. */
  lemma FreeRight(size: map<int, nat>, ptr: map<int, int>, free: set<int>, live: set<int>, cores: seq<Core>,
      base: int, q: int, p: int)
    requires Freeing(size, ptr, free, live, cores, base, q, p) && p in size && p + size[p] == ptr[q]
    ensures ptr[q] in size && ptr[q] in ptr && ptr[q] in free
    ensures var n := ptr[q]; HalfFreed(size[p := size[p] + size[n]], ptr[p := ptr[n]][q := p], free + {p} - {n},
        live - {p}, cores, base, q, p)
  {
    var n := ptr[q];
    InsertFreed(size, ptr, free, live, cores, base, q, p);
    OnlyRightTouched(size, ptr, free, live, cores, base, q, p, n);
    FreeRightLinks(ptr, free, q, p, n);
    MergeTiled(size, Blocks(free, live, base), cores, base, p, n);
    assert Blocks(free + {p} - {n}, live - {p}, base) == Blocks(free, live, base) - {n};
    var s, f := size[p := size[p] + size[n]], free + {p} - {n};
    forall a | a in f && a != q ensures TouchesNone(s, f, a) {
      FreeRightTouch(size, ptr, free, live, cores, base, q, p, a);
    }
    FreeRightTouch(size, ptr, free, live, cores, base, q, p, q);
  }

  /** The left neighbour touches: p becomes part of it. */
  lemma FreeLeft(size: map<int, nat>, ptr: map<int, int>, free: set<int>, live: set<int>, cores: seq<Core>,
      base: int, q: int, p: int)
    requires HalfFreed(size, ptr, free, live, cores, base, q, p) && q in size && p in size && p in ptr
        && q + size[q] == p
    ensures Arena(size[q := size[q] + size[p]], ptr[q := ptr[p]], free - {p}, live, cores, base)
  {
    CycleRemove(free, ptr, q, p);
    assert q in Blocks(free, live, base);
    MergeTiled(size, Blocks(free, live, base), cores, base, q, p);
    assert Blocks(free - {p}, live, base) == Blocks(free, live, base) - {p};
    var s, f := size[q := size[q] + size[p]], free - {p};
    forall a | a in f ensures TouchesNone(s, f, a) {
      assert a != q ==> TouchesNone(size, free, a);
      assert TouchesNone(size, free, p);
    }
  }

  /** The left neighbour does not touch: p stays in the list. */
  lemma FreeNoLeft(size: map<int, nat>, ptr: map<int, int>, free: set<int>, live: set<int>, cores: seq<Core>,
      base: int, q: int, p: int)
    requires HalfFreed(size, ptr, free, live, cores, base, q, p) && q in size && q + size[q] != p
    ensures Arena(size, ptr, free, live, cores, base)
  {
    forall a | a in free ensures TouchesNone(size, free, a) {
      assert a != q ==> TouchesNone(size, free, a);
    }
  }

  /** The free block p is large enough by n units: n of them, at its end, become a live block. */
  lemma TakePart(size: map<int, nat>, ptr: map<int, int>, free: set<int>, live: set<int>, cores: seq<Core>,
      base: int, p: int, n: nat)
    requires Arena(size, ptr, free, live, cores, base) && p in free && 0 < n < size[p]
    ensures var m := (size[p] - n) as nat;
            && p + m !in free && p + m !in live
            && Arena(size[p := m][p + m := n], ptr, free, live + {p + m}, cores, base)
  {
    var m := (size[p] - n) as nat;
    SplitTiled(size, Blocks(free, live, base), cores, p, m, n);
    assert Blocks(free, live + {p + m}, base) == Blocks(free, live, base) + {p + m};
    var s := size[p := m][p + m := n];
    assert BlockAt(size, cores, p);
    BaseOutside(cores, base, p, size[p]);
    forall a | a in free ensures TouchesNone(s, free, a) {
      assert TouchesNone(size, free, a);
    }
  }

  /** The free block p, the successor of q, becomes a live block as a whole. */
  lemma TakeAll(size: map<int, nat>, ptr: map<int, int>, free: set<int>, live: set<int>, cores: seq<Core>, base: int,
      q: int, p: int)
    requires Arena(size, ptr, free, live, cores, base) && q in free && p in free && q in ptr && ptr[q] == p
        && size[p] > 0
    ensures p in ptr && q != p && Arena(size, ptr[q := ptr[p]], free - {p}, live + {p}, cores, base)
  {
    assert Follows(free, q, p);
    assert q != p by {
      if q == p {
        assert OnWay(q, base, q);
      }
    }
    CycleRemove(free, ptr, q, p);
    assert Blocks(free - {p}, live + {p}, base) == Blocks(free, live, base);
    forall a | a in free - {p} ensures TouchesNone(size, free - {p}, a) {
      assert TouchesNone(size, free, a);
    }
  }

  /** These blocks have the sizes they had. */
  ghost predicate SameSizes(blocks: set<int>, size: map<int, nat>, was: map<int, nat>) {
    forall b {:trigger b in blocks} :: b in blocks ==> b in was && b in size && size[b] == was[b]
  }

  lemma SameSizeAt(blocks: set<int>, size: map<int, nat>, was: map<int, nat>, b: int)
    requires SameSizes(blocks, size, was) && b in blocks
    ensures b in was && b in size && size[b] == was[b]
  {
  }

  /** The units that a new core occupies are not used by anything yet. */
  ghost predicate Vacant(cores: seq<Core>, base: int, c: Core) {
    Clear(c, base - 1, 3) && forall i :: 0 <= i < |cores| ==> Clear(c, cores[i].start, cores[i].units)
  }

  lemma CoreTiled(size: map<int, nat>, blocks: set<int>, cores: seq<Core>, base: int, c: Core)
    requires Tiled(size, blocks, cores) && CoresApart(cores, base) && Vacant(cores, base, c) && c.units > 1
    ensures c.start + 1 !in blocks
    ensures Tiled(size[c.start + 1 := c.units - 1], blocks + {c.start + 1}, [c] + cores)
  {
    var b, cs := c.start + 1, [c] + cores;
    var s, k := size[b := c.units - 1], blocks + {b};
    forall a | a in blocks ensures Placed(cs, a, size[a]) && (a + size[a] <= c.start || c.start + c.units <= a) {
      assert BlockAt(size, cores, a);
      var i :| 0 <= i < |cores| && Within(cores[i], a, size[a]);
      assert Within(cs[i + 1], a, size[a]) && Clear(c, cores[i].start, cores[i].units);
    }
    assert Within(cs[0], b, c.units - 1);
    forall a | a in k ensures BlockAt(s, cs, a) {
      assert a != b ==> BlockAt(size, cores, a);
    }
    forall a, d | a in k && d in k ensures ApartAt(s, a, d) {
      assert a != b && d != b ==> ApartAt(size, a, d);
      assert a != b ==> BlockAt(size, cores, a);
      assert d != b ==> BlockAt(size, cores, d);
    }
    forall u ensures CoveredAt(s, k, cs, u) {
      CoreCovers(size, blocks, cores, c, u);
    }
  }

  lemma CoreCovers(size: map<int, nat>, blocks: set<int>, cores: seq<Core>, c: Core, u: int)
    requires blocks <= size.Keys && CoveredAt(size, blocks, cores, u) && c.units > 1 && c.start + 1 !in blocks
    ensures CoveredAt(size[c.start + 1 := c.units - 1], blocks + {c.start + 1}, [c] + cores, u)
  {
    var b, cs := c.start + 1, [c] + cores;
    var s, k := size[b := c.units - 1], blocks + {b};
    if Placed(cs, u, 1) {
      var i :| 0 <= i < |cs| && Within(cs[i], u, 1);
      if i == 0 {
        assert b in k && b <= u < b + s[b];
      } else {
        assert Within(cores[i - 1], u, 1);
        var a :| a in blocks && a <= u < a + size[a];
        assert a in k && a <= u < a + s[a];
      }
    }
  }

  /** A new core, all of whose units but the header are a live block. */
  lemma AddCore(size: map<int, nat>, ptr: map<int, int>, free: set<int>, live: set<int>, cores: seq<Core>, base: int,
      c: Core)
    requires Arena(size, ptr, free, live, cores, base) && Vacant(cores, base, c) && c.units > 1
    ensures c.start + 1 !in free && c.start + 1 !in live
    ensures Arena(size[c.start + 1 := c.units - 1], ptr, free, live + {c.start + 1}, [c] + cores, base)
  {
    var b, cs := c.start + 1, [c] + cores;
    var s := size[b := c.units - 1];
    CoreTiled(size, Blocks(free, live, base), cores, base, c);
    assert Blocks(free, live + {b}, base) == Blocks(free, live, base) + {b};
    SumRemove(s, Blocks(free, live + {b}, base), b);
    SumSame(size, s, Blocks(free, live, base));
    assert Blocks(free, live + {b}, base) - {b} == Blocks(free, live, base);
    forall a | a in free ensures TouchesNone(s, free, a) {
      assert TouchesNone(size, free, a);
    }
    assert cs[1..] == cores;
  }

  /** The free blocks that a walk which is at q has yet to come by, up to and including h. */
  ghost function Rest(free: set<int>, q: int, h: int): set<int> {
    set x | x in free && OnWay(q, x, h)
  }

  lemma WalkStep(free: set<int>, ptr: map<int, int>, q: int, h: int)
    requires Cycle(free, ptr) && q in free && h in free
    ensures var p := ptr[q];
            && p in free && p in Rest(free, q, h)
            && if p == h then Rest(free, q, h) == {h} else Rest(free, p, h) == Rest(free, q, h) - {p}
  {
    assert Follows(free, q, ptr[q]);
  }

  lemma WalkStart(free: set<int>, h: int)
    ensures Rest(free, h, h) == free
  {
  }
}
