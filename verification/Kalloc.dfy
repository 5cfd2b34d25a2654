/** kalloc: memory blocks from large cores, with a free list kept sorted by address. */
module Kalloc {
  import opened Wrappers
  import opened FreeList
  import opened Pigeonhole

  /** sizeof(header_t) and sizeof(size_t). */
  const HEADER := 16
  const WORD := 8

  /** The units that hold a size word and this many bytes. */
  function UnitsFor(bytes: nat): nat {
    (bytes + WORD + HEADER - 1) / HEADER
  }

  /** With units of 16 bytes and a size word of 8 they are the least that do. */
  lemma UnitsHold(bytes: nat)
    ensures 16 * UnitsFor(bytes) - 8 >= bytes
    ensures bytes > 0 ==> UnitsFor(bytes) > 0 && 16 * (UnitsFor(bytes) - 1) - 8 < bytes
  {
  }

  /** The units of the core that morecore asks for: a multiple of the least core size. */
  function CoreUnitsFor(units: nat, min: nat): nat
    requires min > 0
  {
    (units + 1 + (min - 1)) / min * min
  }

  /** It is the least multiple that holds the units and the core's header. */
  lemma CoreHolds(units: nat, min: nat)
    requires min > 0
    ensures units + 1 <= CoreUnitsFor(units, min) < units + 1 + min
    ensures exists k: nat :: CoreUnitsFor(units, min) == Multiple(k, min)
  {
    var x := units + min;
    assert x == x / min * min + x % min;
    assert CoreUnitsFor(units, min) == Multiple(x / min, min);
  }

  function Multiple(k: nat, min: nat): nat {
    k * min
  }

  /** The address of the first byte behind a block's size word. */
  function UserAt(p: int): int {
    p * HEADER + WORD
  }

  /** The bytes of a block lie in its units, behind the size word. */
  lemma UserInUnits(p: int, units: nat)
    ensures UserAt(p) == 16 * p + 8 && UserAt(p) + (units * HEADER - WORD) == 16 * (p + units)
  {
  }

  /** What an address holds; memory that has never been written holds zeros here. */
  function ByteAt(memory: map<int, int>, x: int): int {
    if x in memory then memory[x] else 0
  }

  /** The n bytes from `to` on are those that were at `from`. */
  ghost predicate Copied(memory: map<int, int>, was: map<int, int>, to: int, from: int, n: int) {
    forall x :: to <= x < to + n ==> ByteAt(memory, x) == ByteAt(was, x - to + from)
  }

  /** The n bytes from `to` on are those that were at `from`, and no others have changed. */
  ghost predicate Written(memory: map<int, int>, was: map<int, int>, to: int, from: int, n: int) {
    forall x :: ByteAt(memory, x) == ByteAt(was, if to <= x < to + n then x - to + from else x)
  }

  lemma KeptElsewhere(memory: map<int, int>, was: map<int, int>, to: int, from: int, n: int, lo: int, m: int)
    requires Written(memory, was, to, from, n) && (to + n <= lo || lo + m <= to)
    ensures Copied(memory, was, lo, lo, m)
  {
  }

  /** Units that do not overlap have bytes that do not. */
  lemma ApartInBytes(p: int, sp: nat, q: int, sq: nat)
    requires p + sp <= q
    ensures UserAt(p) + (sp * HEADER - WORD) <= UserAt(q) && UserAt(p) <= UserAt(q) + sq * HEADER
  {
  }

  class Kmem {
    /** The address, in header units, of the zero-sized block that is always in the list. */
    const base: int
    const minCoreSize: nat

    /** The words of the headers: the size of a block, and the next free block. */
    var size: map<int, nat>
    var ptr: map<int, int>

    var loopHead: Option<int>
    var cores: seq<Core>

    /** The bytes that callers keep in their blocks, by address. */
    var memory: map<int, int>

    /** The free blocks, `base` included, and the blocks that callers hold. */
    ghost var free: set<int>
    ghost var live: set<int>

    /** km_init2 */
    constructor (base: int, minCoreSize: nat)
      ensures Valid() && live == {} && cores == [] && this.base == base
    {
      this.base := base;
      this.minCoreSize := if minCoreSize > 0 then minCoreSize else 0x80000;
      size, ptr, loopHead, cores := map[base := 0], map[], None, [];
      memory := map[];
      free, live := {}, {};
    }

    ghost predicate Valid()
      reads this
    {
      && minCoreSize > 0
      && match loopHead
         case None => live == {} && free == {} && cores == [] && base in size && size[base] == 0
         case Some(h) => h in free && Arena(size, ptr, free, live, cores, base)
    }

    ghost predicate Looped()
      reads this
    {
      Valid() && loopHead.Some?
    }

    /** The search of kfree: the free block after which p belongs. */
    method FindGap(p: int) returns (q: int)
      requires Looped() && p in live
      ensures Gap(free, ptr, q, p)
    {
      ghost var pred := Predecessor(free, p);
      q := loopHead.value;
      GapFound(free, ptr, q, p);
      while !(p > q && p < ptr[q]) && !(q >= ptr[q] && (p > q || p < ptr[q]))
        invariant q in free && q in ptr
        invariant Gap(free, ptr, q, p) <==> (p > q && p < ptr[q]) || (q >= ptr[q] && (p > q || p < ptr[q]))
        decreases |Ahead(free, q, pred)|
      {
        AheadShrinks(free, ptr, q, p, pred);
        assert Follows(free, q, ptr[q]);
        q := ptr[q];
        GapFound(free, ptr, q, p);
      }
    }

    /** Merging p with the free block after it, if they touch. */
    method MergeRight(q: int, p: int) returns (panic: bool)
      requires Looped() && Freeing(size, ptr, free, live, cores, base, q, p)
      modifies this`size, this`ptr, this`free, this`live
      ensures HalfFreed(size, ptr[q := p], free, live, cores, base, q, p) && !panic && q in ptr
      ensures live == old(live) - {p} && SameSizes(live, size, old(size)) && p in size && size[p] >= old(size[p])
    {
      panic := false;
      var n := ptr[q];
      ghost var s := size;
      RightBounds(q, p, n);
      if p + size[p] == n {
        FreeRight(size, ptr, free, live, cores, base, q, p);
        size := size[p := size[p] + size[n]];
        ptr := ptr[p := ptr[n]];
        free := free + {p} - {n};
      } else if p + size[p] > n && n >= p {
        panic := true;
      } else {
        FreeNoRight(size, ptr, free, live, cores, base, q, p);
        ptr := ptr[p := n];
        free := free + {p};
      }
      live := live - {p};
    }

    lemma RightBounds(q: int, p: int, n: int)
      requires Looped() && Freeing(size, ptr, free, live, cores, base, q, p) && n == ptr[q]
      ensures live <= size.Keys && p in size && n in size && n in ptr && n in free && size[p] > 0
      ensures p < n ==> p + size[p] <= n
      ensures p + size[p] == n ==> n != base
    {
      var b := Blocks(free, live, base);
      assert p in b && BlockAt(size, cores, p);
      BaseOutside(cores, base, p, size[p]);
      assert Follows(free, q, n);
      if n != base {
        assert n in b && ApartAt(size, p, n);
      }
    }

    /** Merging the free block before p with p, if they touch. */
    method MergeLeft(q: int, p: int) returns (panic: bool)
      requires loopHead.Some? && minCoreSize > 0 && q in ptr && p in size && size[p] > 0
      requires HalfFreed(size, ptr[q := p], free, live, cores, base, q, p)
      modifies this`size, this`ptr, this`free, this`loopHead
      ensures Looped() && !panic
      ensures SameSizes(live, size, old(size)) && loopHead.value in size && size[loopHead.value] >= old(size[p])
    {
      panic := false;
      LeftBounds(q, p);
      if q + size[q] == p {
        FreeLeft(size, ptr[q := p], free, live, cores, base, q, p);
        assert ptr[q := p][q := ptr[p]] == ptr[q := ptr[p]];
        size := size[q := size[q] + size[p]];
        ptr := ptr[q := ptr[p]];
        loopHead := Some(q);
        free := free - {p};
      } else if q + size[q] > p && p >= q {
        panic := true;
      } else {
        FreeNoLeft(size, ptr[q := p], free, live, cores, base, q, p);
        loopHead := Some(p);
        ptr := ptr[q := p];
      }
    }

    lemma LeftBounds(q: int, p: int)
      requires q in ptr && HalfFreed(size, ptr[q := p], free, live, cores, base, q, p)
      ensures live <= size.Keys && q in size && p in ptr && q !in live
      ensures q < p ==> q + size[q] <= p
    {
      var b := Blocks(free, live, base);
      assert p in b && BlockAt(size, cores, p);
      BaseOutside(cores, base, p, size[p]);
      assert p in ptr[q := p];
      if q != base {
        assert q in b && ApartAt(size, q, p);
      }
    }

    /** kfree: the block joins the free list, merged with the free blocks it touches; neither panic is reached. */
    method Free(ap: Option<int>) returns (panic: bool)
      requires Valid() && (ap.Some? ==> ap.value in live)
      modifies this`size, this`ptr, this`free, this`live, this`loopHead
      ensures Valid() && !panic && live == old(live) - (if ap.Some? then {ap.value} else {})
      ensures SameSizes(live, size, old(size))
      ensures ap.Some? ==>
          ap.value in old(size) && loopHead.Some? && loopHead.value in size
          && size[loopHead.value] >= old(size)[ap.value]
    {
      LiveSized();
      if ap.None? {
        return false;
      }
      var p := ap.value;
      var q := FindGap(p);
      panic := MergeRight(q, p);
      if !panic {
        panic := MergeLeft(q, p);
      }
    }

    lemma LiveSized()
      requires Valid()
      ensures live <= size.Keys && forall a :: a in live ==> size[a] > 0
    {
      if loopHead.Some? {
        forall a | a in live ensures a in size && size[a] > 0 {
          assert a in Blocks(free, live, base) && BlockAt(size, cores, a);
        }
      }
    }

    /** The first use puts the base block into the list. */
    method Start()
      requires Valid()
      modifies this`ptr, this`loopHead, this`free
      ensures Looped() && old(free) <= free
    {
      if loopHead.None? {
        loopHead := Some(base);
        ptr := ptr[base := base];
        free := {base};
        assert Blocks(free, live, base) == {};
        assert forall u :: CoveredAt(size, {}, cores, u);
        assert Sum(size, {}) == 0;
        forall a | a in free ensures TouchesNone(size, free, a) {
        }
      }
    }

    /** morecore: a new core, whose only block is freed into the list. */
    method MoreCore(units: nat, start: int)
      requires Looped() && Vacant(cores, base, Core(start, CoreUnitsFor(units, minCoreSize))) && units > 0
      modifies this`size, this`ptr, this`free, this`live, this`loopHead, this`cores
      ensures Looped() && live == old(live) && SameSizes(live, size, old(size))
      ensures cores == [Core(start, CoreUnitsFor(units, minCoreSize))] + old(cores)
      ensures loopHead.value in size && size[loopHead.value] >= units
    {
      CoreHolds(units, minCoreSize);
      var nu := CoreUnitsFor(units, minCoreSize);
      ghost var s := size;
      LiveSized();
      AddCore(size, ptr, free, live, cores, base, Core(start, nu));
      cores := [Core(start, nu)] + cores;
      size := size[start + 1 := nu - 1];
      live := live + {start + 1};
      assert SameSizes(live - {start + 1}, size, s);
      var panic := Free(Some(start + 1));
    }

    /** The free block p, which follows q, gives n units, at its end or as a whole, and the list's head moves to q. */
    method Take(q: int, p: int, n: nat) returns (a: int)
      requires Looped() && q in free && q in ptr && p == ptr[q] && p in free && p in size && 0 < n <= size[p]
      modifies this`size, this`ptr, this`free, this`live, this`loopHead
      ensures Looped() && a !in old(live) && live == old(live) + {a} && a in size && size[a] == n
      ensures SameSizes(old(live), size, old(size))
    {
      LiveSized();
      assert p !in live;
      if size[p] == n {
        TakeAll(size, ptr, free, live, cores, base, q, p);
        ptr := ptr[q := ptr[p]];
        free := free - {p};
        a := p;
      } else {
        TakePart(size, ptr, free, live, cores, base, p, n);
        ghost var s := size;
        size := size[p := (size[p] - n) as nat];
        a := p + size[p];
        size := size[a := n];
      }
      live := live + {a};
      loopHead := Some(q);
    }

    /** None of the free blocks that a walk from the list's head has come by has n units. */
    ghost predicate AllSmaller(q: int, n: nat)
      reads this
    {
      loopHead.Some? && forall x {:trigger size[x]} ::
          x in free && x !in Rest(free, q, loopHead.value)
          ==> x in size && size[x] < n
    }

    /** kmalloc: a new live block that holds the bytes. A core is added, at `start`, only when no free block is large
        enough, and then the search ends. */
    method Malloc(bytes: nat, start: int) returns (r: Option<int>)
      requires Valid() && Vacant(cores, base, Core(start, CoreUnitsFor(UnitsFor(bytes), minCoreSize)))
      modifies this`size, this`ptr, this`free, this`live, this`loopHead, this`cores
      ensures Valid() && (r.None? <==> bytes == 0)
      ensures r.None? ==> live == old(live) && cores == old(cores) && size == old(size)
      ensures r.Some? ==> r.value !in old(live) && live == old(live) + {r.value}
      ensures r.Some? ==> r.value in size && size[r.value] == UnitsFor(bytes) && size[r.value] * HEADER - WORD >= bytes
      ensures SameSizes(old(live), size, old(size))
      ensures cores == old(cores) || cores == [Core(start, CoreUnitsFor(UnitsFor(bytes), minCoreSize))] + old(cores)
      ensures cores != old(cores) ==> forall x :: x in old(free) ==> x in old(size) && old(size)[x] < UnitsFor(bytes)
    {
      LiveSized();
      if bytes == 0 {
        return None;
      }
      UnitsHold(bytes);
      var n := UnitsFor(bytes);
      ghost var free0, size0, live0 := free, size, live;
      Start();
      FreeSized();
      var q := loopHead.value;
      var p := ptr[q];
      ghost var grown := false;
      WalkStart(free, q);
      WalkStep(free, ptr, q, loopHead.value);
      while size[p] < n
        invariant Looped() && q in free && q in ptr && p == ptr[q] && p in free && p in size
        invariant live == live0 && SameSizes(live0, size, size0)
        invariant cores == if grown then [Core(start, CoreUnitsFor(n, minCoreSize))] + old(cores) else old(cores)
        invariant !grown ==> size == size0 && free0 <= free && AllSmaller(q, n)
        invariant grown ==> size[loopHead.value] >= n && forall x :: x in free0 ==> x in size0 && size0[x] < n
        decreases !grown, |Rest(free, q, loopHead.value)|
      {
        WalkStep(free, ptr, q, loopHead.value);
        if p == loopHead.value {
          MoreCore(n, start);
          p := loopHead.value;
          grown := true;
          WalkStart(free, p);
        } else {
          SubsetSize(Rest(free, p, loopHead.value), Rest(free, q, loopHead.value));
        }
        FreeSized();
        q := p;
        p := ptr[p];
        WalkStep(free, ptr, q, loopHead.value);
      }
      var a := Take(q, p, n);
      r := Some(a);
    }

    lemma FreeSized()
      requires Looped()
      ensures free <= size.Keys && free <= ptr.Keys && Cycle(free, ptr) && live <= size.Keys
    {
    }

    /** Two live blocks have no unit in common. */
    lemma LiveApart(p: int, q: int)
      requires Looped() && p in live && q in live && p != q
      ensures p in size && q in size && size[p] > 0 && size[q] > 0 && (p + size[p] <= q || q + size[q] <= p)
    {
      var b := Blocks(free, live, base);
      assert p in b && q in b;
      assert BlockAt(size, cores, p) && BlockAt(size, cores, q);
      assert ApartAt(size, p, q) && ApartAt(size, q, p);
    }

    /** The header of a free block, which the operations overwrite, lies in no live block. */
    lemma HeadersApart(f: int, p: int)
      requires Looped() && f in free && p in live
      ensures p in size && !(p <= f < p + size[p])
    {
      var b := Blocks(free, live, base);
      assert p in b && BlockAt(size, cores, p);
      if f == base {
        BaseOutside(cores, base, p, size[p]);
      } else {
        assert f in b && BlockAt(size, cores, f);
        assert ApartAt(size, p, f);
      }
    }

    /** memcpy, of regions that do not overlap. */
    method CopyBytes(to: int, from: int, n: nat)
      requires to + n <= from || from + n <= to
      modifies this`memory
      ensures Written(memory, old(memory), to, from, n)
    {
      var i := 0;
      while i < n
        invariant i <= n && Written(memory, old(memory), to, from, i)
      {
        ghost var m := memory;
        memory := memory[to + i := ByteAt(memory, from + i)];
        assert forall x :: ByteAt(memory, x) == ByteAt(m, if x == to + i then from + i else x);
        i := i + 1;
      }
    }

    /** What the copy into the block q leaves in another live block. */
    lemma OthersKept(was: map<int, int>, q: int, from: int, n: nat, b: int)
      requires Looped() && q in live && b in live && b != q && q in size && n <= size[q] * HEADER - WORD
      requires Written(memory, was, UserAt(q), from, n)
      ensures b in size && Copied(memory, was, UserAt(b), UserAt(b), size[b] * HEADER - WORD)
    {
      LiveApart(q, b);
      if q + size[q] <= b {
        ApartInBytes(q, size[q], b, size[b]);
      } else {
        ApartInBytes(b, size[b], q, size[q]);
      }
      KeptElsewhere(memory, was, UserAt(q), from, n, UserAt(b), size[b] * HEADER - WORD);
    }

    /** krealloc: the block keeps its contents, in place or in a larger block, and so do all others. */
    method Realloc(ap: Option<int>, bytes: nat, start: int) returns (r: Option<int>)
      requires Valid() && (ap.Some? ==> ap.value in live)
      requires Vacant(cores, base, Core(start, CoreUnitsFor(UnitsFor(bytes), minCoreSize)))
      modifies this`size, this`ptr, this`free, this`live, this`loopHead, this`cores, this`memory
      ensures Valid() && (r.None? <==> bytes == 0)
      ensures r.Some? ==> r.value in size && size[r.value] * HEADER - WORD >= bytes
      ensures var others := old(live) - (if ap.Some? then {ap.value} else {});
              live == (if r.Some? then others + {r.value} else others) && SameSizes(others, size, old(size))
                  && (r.Some? ==> r.value !in others)
      ensures ap.Some? && ap.value in old(size) && old(size)[ap.value] * HEADER - WORD >= bytes > 0
          ==> r == ap && size == old(size)
      ensures ap.Some? && r.Some? ==>
                ap.value in old(size)
                    && Copied(memory, old(memory), UserAt(r.value), UserAt(ap.value),
                    old(size)[ap.value] * HEADER - WORD)
      ensures forall b :: b in old(live) && Some(b) != ap ==>
                b in size && Copied(memory, old(memory), UserAt(b), UserAt(b), size[b] * HEADER - WORD)
    {
      LiveSized();
      if bytes == 0 {
        var panic := Free(ap);
        return None;
      }
      if ap.None? {
        r := Malloc(bytes, start);
        return r;
      }
      var cap := size[ap.value] * HEADER - WORD;
      if cap >= bytes {
        return ap;
      }
      r := Malloc(bytes, start);
      CopyInto(r.value, ap.value, cap);
      ghost var s := size;
      var panic := Free(ap);
      SameSizeAt(live, size, s, r.value);
      assert forall b {:trigger b in live} :: b in live ==> b in size && b in s && size[b] == s[b];
    }

    /** The copy from the block p into the larger block q. */
    method CopyInto(q: int, p: int, cap: int)
      requires Looped() && q in live && p in live && p != q && p in size && q in size
      requires cap == size[p] * HEADER - WORD && cap <= size[q] * HEADER - WORD
      modifies this`memory
      ensures Looped() && Copied(memory, old(memory), UserAt(q), UserAt(p), cap)
      ensures forall b ::
          b in live && b != q
          ==> b in size && Copied(memory, old(memory), UserAt(b), UserAt(b), size[b] * HEADER - WORD)
    {
      LiveApart(p, q);
      if p < q {
        ApartInBytes(p, size[p], q, size[q]);
      } else {
        ApartInBytes(q, size[q], p, size[p]);
      }
      ghost var was := memory;
      CopyBytes(UserAt(q), UserAt(p), cap);
      forall b | b in live && b != q ensures b in size
          && Copied(memory, was, UserAt(b), UserAt(b), size[b] * HEADER - WORD) {
        OthersKept(was, q, UserAt(p), cap, b);
      }
    }

    lemma SplitSum()
      requires Looped()
      ensures free <= size.Keys && live <= size.Keys && Sum(size, free) + Sum(size, live) + |cores| == CoreUnits(cores)
    {
      FreeSized();
      SumRemove(size, free, base);
      SumUnion(size, free - {base}, live);
    }

    lemma BlockSize(p: int)
      requires Looped() && p in free
      ensures p in size && (size[p] == 0 <==> p == base)
    {
      assert p != base ==> p in Blocks(free, live, base) && BlockAt(size, cores, p);
    }

    /** The free blocks that the walk has counted when it comes to p. */
    ghost predicate Counted(done: set<int>, p: int, h: int, available: nat, blocks: nat)
      reads this
    {
      && p in free && p !in done && done <= free && free <= size.Keys
      && available == Sum(size, done) * HEADER && blocks == |done - {base}|
      && forall x {:trigger x in done} :: x in free ==> (x in done <==> x != p && (x !in Rest(free, p, h) || x == h))
    }

    /** One block more: its size, and the number of blocks that are not the base block. */
    lemma OneMore(done: set<int>, p: int)
      requires p in size && p !in done && done <= size.Keys
      ensures Sum(size, done + {p}) == Sum(size, done) + size[p]
      ensures |done + {p} - {base}| == |done - {base}| + if p == base then 0 else 1
    {
      hide Sum;
      SumRemove(size, done + {p}, p);
      assert done + {p} - {p} == done;
      OneMoreBut(done, p, base);
    }

    static lemma OneMoreBut(done: set<int>, p: int, b: int)
      requires p !in done
      ensures |done + {p} - {b}| == |done - {b}| + if p == b then 0 else 1
    {
      if p == b {
        assert done + {p} - {b} == done - {b};
      } else {
        assert done + {p} - {b} == done - {b} + {p};
      }
    }

    lemma CountOne(done: set<int>, p: int, h: int, available: nat, blocks: nat)
      requires Looped() && h in free && Counted(done, p, h, available, blocks)
      ensures p in size && p in ptr
      ensures var more, n, all := available + size[p] * HEADER, (if size[p] != 0 then blocks + 1 else blocks),
          done + {p};
              if ptr[p] == h then all == free && more == Sum(size, free) * HEADER && n == |free| - 1
              else Counted(all, ptr[p], h, more, n)
    {
      FreeSized();
      BlockSize(p);
      WalkStep(free, ptr, p, h);
      OneMore(done, p);
      hide Looped, Cycle, Rest, Sum;
      if ptr[p] == h {
        CountAll(done, p, h, available, blocks);
      }
    }

    lemma CountAll(done: set<int>, p: int, h: int, available: nat, blocks: nat)
      requires Counted(done, p, h, available, blocks) && Rest(free, p, h) == {h}
      ensures done + {p} == free
    {
      forall x | x in free ensures x in done + {p} {
        assert x in done || x == p || x in Rest(free, p, h);
        assert x == h ==> x in done || x == p;
      }
    }

    /** The first loop of km_stat. */
    method StatFree() returns (available: nat, blocks: nat)
      requires Looped()
      ensures free <= size.Keys && available == Sum(size, free) * HEADER && blocks == |free| - 1
    {
      FreeSized();
      available, blocks := 0, 0;
      var h := loopHead.value;
      var p := h;
      ghost var done: set<int> := {};
      WalkStart(free, h);
      while true
        invariant Counted(done, p, h, available, blocks)
        decreases |free - done|
      {
        CountOne(done, p, h, available, blocks);
        available := available + size[p] * HEADER;
        if size[p] != 0 {
          blocks := blocks + 1;
        }
        SubsetSize(free - (done + {p}), free - done);
        done := done + {p};
        if ptr[p] == h {
          break;
        }
        p := ptr[p];
      }
    }

    /** The second loop of km_stat. */
    method StatCores() returns (nCores: nat, capacity: nat, largest: nat)
      ensures nCores == |cores| && capacity == CoreUnits(cores) * HEADER
      ensures forall i :: 0 <= i < |cores| ==> cores[i].units * HEADER <= largest
      ensures if cores == [] then largest == 0 else exists i :: 0 <= i < |cores| && cores[i].units * HEADER == largest
    {
      nCores, capacity, largest := 0, 0, 0;
      while nCores < |cores|
        invariant 0 <= nCores <= |cores|
        invariant capacity + CoreUnits(cores[nCores..]) * HEADER == CoreUnits(cores) * HEADER
        invariant forall i :: 0 <= i < nCores ==> cores[i].units * HEADER <= largest
        invariant if nCores == 0 then largest == 0
            else exists i :: 0 <= i < nCores && cores[i].units * HEADER == largest
      {
        var bytes := cores[nCores].units * HEADER;
        assert cores[nCores..][1..] == cores[nCores + 1..];
        capacity := capacity + bytes;
        if largest <= bytes {
          largest := bytes;
        }
        nCores := nCores + 1;
      }
    }

    /** km_stat: what is available, what is held and the headers make up the whole capacity. */
    method Stat() returns (available: nat, blocks: nat, nCores: nat, capacity: nat, largest: nat)
      requires Valid()
      ensures live <= size.Keys && available + (Sum(size, live) + |cores|) * HEADER == capacity
      ensures nCores == |cores| && capacity == CoreUnits(cores) * HEADER
      ensures forall i :: 0 <= i < |cores| ==> cores[i].units * HEADER <= largest
      ensures if cores == [] then largest == 0 else exists i :: 0 <= i < |cores| && cores[i].units * HEADER == largest
      ensures blocks == if loopHead.None? then 0 else |free| - 1
    {
      LiveSized();
      available, blocks, nCores, capacity, largest := 0, 0, 0, 0, 0;
      if loopHead.None? {
        return;
      }
      available, blocks := StatFree();
      SplitSum();
      nCores, capacity, largest := StatCores();

    }
  }
}
