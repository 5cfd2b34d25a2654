/** The operations of cc_map that may replace the table by a larger or smaller one. An allocation of
    capacity c succeeds exactly when c is at most `limit`. */
module CcMapGrow {
  import opened Wrappers
  import opened Pigeonhole
  import opened QuadraticProbe
  import opened MapChains
  import opened CcMap

  lemma SizeWithinCapacity<K(0), V(0)>(cntr: Header<K, V>)
    requires cntr.Valid()
    ensures cntr.size <= cntr.Cap()
  {
    BucketsBound(cntr.where, cntr.Cap());
  }

  lemma {:induction false} BucketsBound<K>(where: map<K, nat>, cap: nat)
    requires forall k :: k in where ==> where[k] < cap
    requires forall k, l :: k in where && l in where && where[k] == where[l] ==> k == l
    ensures |where| <= cap
    decreases cap
  {
    if cap == 0 {
      assert where.Keys == {};
    } else if k :| k in where && where[k] == cap - 1 {
      assert (where - {k}).Keys == where.Keys - {k};
      BucketsBound(where - {k}, cap - 1);
    } else {
      BucketsBound(where, cap - 1);
    }
  }

  lemma {:induction false} NextPowerOfTwo(a: nat, b: nat)
    requires PowerOfTwo(a) && PowerOfTwo(b) && a < b
    ensures 2 * a <= b
    decreases a
  {
    if a > 1 {
      NextPowerOfTwo(a / 2, b / 2);
    }
  }

  /** The copy holds exactly the pairs of the table that lie before bucket i. */
  ghost predicate CopiedUpTo<K, V>(where: map<K, nat>, contents: map<K, V>, copy: map<K, V>, i: nat) {
    && (forall k :: k in copy ==> k in where && where[k] < i && k in contents && copy[k] == contents[k])
    && (forall k :: k in where && where[k] < i ==> k in copy)
  }

  lemma CopiedNext<K, V>(where: map<K, nat>, contents: map<K, V>, copy: map<K, V>, i: nat, key: K)
    requires CopiedUpTo(where, contents, copy, i)
    requires key in where && where[key] == i && key in contents
    requires forall k :: k in where && where[k] == i ==> k == key
    ensures CopiedUpTo(where, contents, copy[key := contents[key]], i + 1)
  {
  }

  lemma CopiedFewer<K, V>(where: map<K, nat>, copy: map<K, V>, key: K)
    requires forall k :: k in copy ==> k in where
    requires key in where && key !in copy
    ensures |copy| < |where|
  {
    SubsetSize(copy.Keys + {key}, where.Keys);
  }

  lemma CopiedAll<K, V>(where: map<K, nat>, contents: map<K, V>, copy: map<K, V>, cap: nat)
    requires CopiedUpTo(where, contents, copy, cap)
    requires forall k :: k in where ==> where[k] < cap
    requires contents.Keys == where.Keys
    ensures copy == contents && |copy| == |where|
  {
    assert copy.Keys == where.Keys;
    assert |copy| == |copy.Keys|;
  }

  lemma ContentsSize<K(0), V(0)>(m: Header<K, V>)
    requires m.Valid()
    ensures m.Contents().Keys == m.where.Keys && |m.Contents()| == m.size
  {
    assert |m.Contents()| == |m.Contents().Keys|;
  }

  /** Copies the pair of bucket i. */
  method CopyPair<K(0),
      V(0)>(key: K, el: V, fresher: Header<K, V>, ghost where: map<K, nat>, ghost contents: map<K, V>, ghost i: nat)
    returns (ok: bool)
    requires fresher.Sound() && fresher.capMask != 0
    requires key in where && where[key] == i && key in contents && contents[key] == el
    requires forall k :: k in where && where[k] == i ==> k == key
    requires CopiedUpTo(where, contents, fresher.Contents(), i)
    modifies fresher, fresher.metadata, fresher.keys, fresher.vals
    ensures ok ==> fresher.Sound() && CopiedUpTo(where, contents, fresher.Contents(), i + 1)
    ensures fresher.Valid() && (!ok ==> fresher.size < |where|)
    ensures !ok ==> fresher.Cap() > 1024 || |where| > fresher.Cap()
  {
    ghost var copy := fresher.Contents();
    ContentsSize(fresher);
    CopiedFewer(where, copy, key);
    var itr := fresher.Reinsert(el, key);
    ok := itr.Some?;
    if ok {
      CopiedNext(where, contents, copy, i, key);
    } else {
      ContentsSize(fresher);
    }
  }

  ghost predicate Apart<K(0), V(0)>(o: object, m: Header<K, V>) {
    o != m && o != m.metadata && o != m.keys && o != m.vals
  }

  lemma PairAt<K, V>(meta: seq<Metadatum>, keys: seq<K>, vals: seq<V>, where: map<K, nat>, i: nat)
    requires |meta| == |keys| == |vals| && Indexed(meta, keys, where, -1)
    requires i < |meta|
    ensures meta[i] != EMPTY ==> keys[i] in where && where[keys[i]] == i && View(where, vals)[keys[i]] == vals[i]
    ensures meta[i] != EMPTY ==> forall k :: k in where && where[k] == i ==> k == keys[i]
    ensures meta[i] == EMPTY ==> forall k :: k in where ==> where[k] != i
  {
  }

  /** Reinserts every pair of the given buckets, stopping if the displacement limit refuses one. */
  method CopyPairs<K(0),
      V(0)>(metadata: array<Metadatum>, keys: array<K>, vals: array<V>, cap: nat, fresher: Header<K, V>,
                               ghost meta: seq<Metadatum>, ghost where: map<K, nat>)
    requires cap == keys.Length == vals.Length == |meta| <= metadata.Length && meta == metadata[..cap]
    requires Indexed(meta, keys[..], where, -1)
    requires fresher.Sound() && fresher.capMask != 0 && fresher.Contents() == map[]
    requires Apart(metadata, fresher) && Apart(keys, fresher) && Apart(vals, fresher)
    modifies fresher, fresher.metadata, fresher.keys, fresher.vals
    ensures fresher.Valid()
    ensures fresher.size == |where| ==> fresher.Sound() && fresher.Contents() == View(where, vals[..])
    ensures fresher.size <= |where|
    ensures fresher.size < |where| ==> fresher.Cap() > 1024 || |where| > fresher.Cap()
  {
    var i := 0;
    ghost var ks, vs := keys[..], vals[..];
    while i < cap
      invariant i <= cap
      invariant meta == metadata[..cap] && ks == keys[..] && vs == vals[..]
      invariant fresher.Sound()
      invariant CopiedUpTo(where, View(where, vs), fresher.Contents(), i)
    {
      PairAt(meta, ks, vs, where, i);
      assert meta[i] == metadata[i] && ks[i] == keys[i] && vs[i] == vals[i];
      if metadata[i] != EMPTY {
        var ok := CopyPair(keys[i], vals[i], fresher, where, View(where, vs), i);
        if !ok {
          return;
        }
      }
      i := i + 1;
    }
    ContentsSize(fresher);
    CopiedAll(where, View(where, vs), fresher.Contents(), i);
  }

  /** One attempt at a rehash; null if the displacement limit stopped it. */
  method TryRehash<K(0), V(0)>(cntr: Header<K, V>, cap: nat) returns (r: Header?<K, V>)
    requires cntr.Valid()
    requires PowerOfTwo(cap) && cap >= MIN_NONZERO_BUCKET_COUNT
    ensures r != null ==> fresh(r) && fresh(r.metadata) && fresh(r.keys) && fresh(r.vals)
    ensures r != null ==> r.Sound() && r.hash == cntr.hash && r.Contents() == cntr.Contents() && r.size == cntr.size
    ensures r != null ==> r.Cap() == cap
    ensures cap <= 1024 && cntr.size <= cap ==> r != null
  {
    r := new Header.Empty(cntr.hash, cap);
    CopyPairs(cntr.metadata, cntr.keys, cntr.vals, cntr.Cap(), r, cntr.Meta(), cntr.where);
    if r.size < cntr.size {
      r := null;
    }
  }

  /** cc_map_make_rehash: a duplicate with capacity cap, or with the first doubling of it that the displacement limit
      allows; null if an allocation fails. `asked` is the last capacity asked for. */
  method MakeRehash<K(0), V(0)>(cntr: Header<K, V>, cap: nat, limit: nat) returns (r: Header?<K, V>, ghost asked: nat)
    requires cntr.Valid()
    requires PowerOfTwo(cap) && cap >= MIN_NONZERO_BUCKET_COUNT
    ensures r != null ==> fresh(r) && fresh(r.metadata) && fresh(r.keys) && fresh(r.vals)
    ensures r != null ==> r.Sound() && r.hash == cntr.hash && r.Contents() == cntr.Contents() && r.size == cntr.size
    ensures PowerOfTwo(asked) && cap <= asked && (r == null <==> asked > limit) && (r != null ==> r.Cap() == asked)
    ensures cap <= 1024 && cntr.size <= cap ==> asked == cap
  {
    var c := cap;
    while true
      invariant PowerOfTwo(c) && c >= cap
      invariant cap <= 1024 && cntr.size <= cap ==> c == cap
      decreases limit - c
    {
      asked := c;
      if c > limit {
        return null, c;
      }
      r := TryRehash(cntr, c);
      if r != null {
        return r, c;
      }
      c := c * 2;
    }
  }

  /** A capacity at which the insertion of one more pair cannot fail. */
  ghost predicate Suffices(cap: nat, size: nat, maxLoad: real, limit: nat) {
    PowerOfTwo(cap) && MIN_NONZERO_BUCKET_COUNT <= cap <= 1024 && cap <= limit && size + 1 <= LoadLimit(maxLoad, cap)
  }

  lemma LoadWithinCapacity(maxLoad: real, cap: nat)
    requires 0.0 <= maxLoad <= 1.0
    ensures LoadLimit(maxLoad, cap) <= cap
  {
    assert maxLoad * cap as real <= cap as real;
  }

  /** cc_map_insert. None means that an allocation failed, of the capacity `asked`. The stored pairs are then what they
      were, but if the last attempt ended in a failed eviction one of them is in no chain and is not found any more. */
  method Insert<K(0), V(0)>(cntr: Header<K, V>, el: V, key: K, replace: bool, maxLoad: real, limit: nat)
    returns (res: Header<K, V>, itr: Option<nat>, ghost asked: nat)
    requires cntr.Sound() && 0.0 <= maxLoad <= 1.0
    modifies cntr, cntr.metadata, cntr.keys, cntr.vals
    ensures res.Valid() && res.hash == cntr.hash
    ensures itr.Some? ==> res.Sound() && key in res.Contents() && itr.value == res.where[key]
    ensures itr.Some? ==> res.Contents() == Inserted(old(cntr.Contents()), key, el, replace)
    ensures itr.None? ==> res.Contents() == old(cntr.Contents()) && key !in res.Contents()
    ensures itr.None? ==> PowerOfTwo(asked) && res.Cap() < asked && limit < asked
    ensures itr.None? ==> (res.lost != -1 <==>
        old(cntr.size) + 1 <= LoadLimit(maxLoad, res.Cap())
        && res.EvictionFails(key))
    ensures itr.None? && res.Cap() <= 1024 ==> res.Sound()
    ensures forall c :: Suffices(c, old(cntr.size), maxLoad, limit) && cntr.Cap() <= c ==> itr.Some?
  {
    res := cntr;
    ghost var before := cntr.Contents();
    while true
      invariant res.Sound() && res.hash == cntr.hash
      invariant res == cntr || (fresh(res) && fresh(res.metadata) && fresh(res.keys) && fresh(res.vals))
      invariant res.Contents() == before && res.size == old(cntr.size)
      invariant forall c :: Suffices(c, old(cntr.size), maxLoad, limit) && cntr.Cap() <= c ==> res.Cap() <= c
      decreases limit - res.Cap()
    {
      itr := res.InsertRaw(el, key, replace, maxLoad);
      if itr.Some? {
        asked := 0;
        return;
      }
      LoadWithinCapacity(maxLoad, res.Cap());
      var cap := if res.capMask != 0 then res.Cap() * 2 else MIN_NONZERO_BUCKET_COUNT;
      MustGrow(res, old(cntr.size), cntr.Cap(), cap, maxLoad, limit);
      var next;
      next, asked := MakeRehash(res, cap, limit);
      if next == null {
        return;
      }
      res := next;
    }
  }

  lemma MustGrow<K(0), V(0)>(m: Header<K, V>, size: nat, least: nat, cap: nat, maxLoad: real, limit: nat)
    requires m.Valid() && m.size == size && 0.0 <= maxLoad <= 1.0
    requires cap == if m.capMask != 0 then m.Cap() * 2 else MIN_NONZERO_BUCKET_COUNT
    requires size + 1 > LoadLimit(maxLoad, m.Cap()) || m.Cap() > 1024 || size >= m.Cap()
    requires forall c :: Suffices(c, size, maxLoad, limit) && least <= c ==> m.Cap() <= c
    ensures PowerOfTwo(cap) && cap >= MIN_NONZERO_BUCKET_COUNT && cap > m.Cap() && m.size <= cap
    ensures forall c :: Suffices(c, size, maxLoad, limit) && least <= c ==> cap <= c
  {
    SizeWithinCapacity(m);
    forall c | Suffices(c, size, maxLoad, limit) && least <= c ensures cap <= c {
      LoadWithinCapacity(maxLoad, c);
      if m.capMask != 0 {
        NextPowerOfTwo(m.Cap(), c);
      }
    }
  }
}
