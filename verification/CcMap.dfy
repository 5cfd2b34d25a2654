/** cc_map: an open-addressing hash table with chains threaded through quadratic displacements. */
module CcMap {
  import opened Wrappers
  import opened Pigeonhole
  import opened QuadraticProbe
  import opened MapChains

  const HASH_LIMIT: nat := 0x1_0000_0000_0000_0000
  const MIN_NONZERO_BUCKET_COUNT: nat := 8
  const STOPPER := Metadatum(0, false, 1)

  type HashCode = h: nat | h < HASH_LIMIT

  /** The highest four bits of a 64-bit hash code. */
  function HashFrag(h: HashCode): (r: nat)
    ensures r < 16
  {
    h / 0x1000_0000_0000_0000
  }

  function HomeOf<K>(hash: K -> HashCode, buckets: nat, key: K): (r: nat)
    requires buckets > 0
    ensures r < buckets
  {
    Reduce(hash(key), buckets)
  }

  /** The number of elements a table may hold before it must grow. */
  function LoadLimit(maxLoad: real, cap: nat): int {
    (maxLoad * cap as real).Floor
  }

  ghost predicate IsProbe(cap: nat, at: Probe)
    requires cap > 0
  {
    forall h: nat, d: nat {:trigger Slot(cap, h, d)} :: at(h, d) == Slot(cap, h, d)
  }

  /** Each occupied bucket's home and hash fragment are those of its key. */
  ghost predicate Keyed<K>(hash: K -> HashCode, meta: seq<Metadatum>, keys: seq<K>, home: seq<nat>)
    requires |meta| == |keys| == |home|
  {
    forall b :: 0 <= b < |meta| && meta[b] != EMPTY ==>
      home[b] == HomeOf(hash, |meta|, keys[b]) && meta[b].frag == HashFrag(hash(keys[b]))
  }

  /** `where` finds each key's one bucket, the bucket `skip` (or -1) aside. */
  ghost predicate Indexed<K>(meta: seq<Metadatum>, keys: seq<K>, where: map<K, nat>, skip: int)
    requires |meta| == |keys|
  {
    && (forall b :: 0 <= b < |meta| && meta[b] != EMPTY && b != skip ==> keys[b] in where && where[keys[b]] == b)
    && (forall k :: k in where ==>
        where[k] < |meta| && meta[where[k]] != EMPTY && where[k] != skip
        && keys[where[k]] == k)
  }

  /** The abstract map: each key with the element stored in its bucket. */
  ghost function View<K, V>(where: map<K, nat>, vals: seq<V>): map<K, V> {
    map k | k in where && where[k] < |vals| :: vals[where[k]]
  }

  /** The same buckets are occupied, but for one that no longer is empty. */
  ghost predicate Fills(meta: seq<Metadatum>, after: seq<Metadatum>, e: int) {
    |after| == |meta| && forall b :: 0 <= b < |meta| ==> (after[b] != EMPTY <==> meta[b] != EMPTY || b == e)
  }

  /** Copying an occupied bucket into an empty one moves its key. */
  lemma IndexMoved<K, V>(meta: seq<Metadatum>, after: seq<Metadatum>, keys: seq<K>, vals: seq<V>, where: map<K, nat>,
      bucket: nat, e: nat)
    requires |meta| == |keys| == |vals| && Indexed(meta, keys, where, -1)
    requires bucket < |meta| && e < |meta| && meta[bucket] != EMPTY && meta[e] == EMPTY
    requires Fills(meta, after, e)
    ensures Indexed(after, keys[e := keys[bucket]], where[keys[bucket] := e], bucket)
    ensures View(where[keys[bucket] := e], vals[e := vals[bucket]]) == View(where, vals)
  {
  }

  /** Storing a new key in a bucket that held none (or only the stale copy `skip`). */
  lemma IndexAdded<K, V>(meta: seq<Metadatum>, after: seq<Metadatum>, keys: seq<K>, vals: seq<V>, where: map<K, nat>,
                         skip: int, e: nat, key: K, el: V)
    requires |meta| == |keys| == |vals| && Indexed(meta, keys, where, skip)
    requires e < |meta| && key !in where
    requires if skip == -1 then meta[e] == EMPTY else e == skip
    requires Fills(meta, after, e)
    ensures Indexed(after, keys[e := key], where[key := e], -1)
    ensures View(where[key := e], vals[e := el]) == View(where, vals)[key := el]
  {
  }

  /** How a key's bucket moves, seen from the erased bucket: with `advance` what lies after it stays after it,
      without it one key has come from behind into the bucket. */
  ghost predicate Visits<K>(before: map<K, nat>, after: map<K, nat>, bucket: nat, advance: bool) {
    forall k :: k in after ==>
      && k in before
      && if advance then after[k] > bucket <==> before[k] > bucket else after[k] >= bucket <==> before[k] > bucket
  }

  lemma VisitsReplaced<K>(meta: seq<Metadatum>, keys: seq<K>, where: map<K, nat>, e: nat, last: nat)
    requires |meta| == |keys| && Indexed(meta, keys, where, -1)
    requires e < |meta| && last < |meta| && e != last && meta[e] != EMPTY && meta[last] != EMPTY
    ensures Visits(where, (where - {keys[e]})[keys[last] := e], e, last < e)
  {
  }

  /** The same buckets are occupied, but for one that is now empty. */
  ghost predicate Empties(meta: seq<Metadatum>, after: seq<Metadatum>, e: int) {
    |after| == |meta| && forall b :: 0 <= b < |meta| ==> (after[b] != EMPTY <==> meta[b] != EMPTY && b != e)
  }

  /** Emptying a bucket removes its key. */
  lemma IndexRemoved<K,
      V>(meta: seq<Metadatum>, after: seq<Metadatum>, keys: seq<K>, vals: seq<V>, where: map<K, nat>, e: nat)
    requires |meta| == |keys| == |vals| && Indexed(meta, keys, where, -1)
    requires e < |meta| && meta[e] != EMPTY && Empties(meta, after, e)
    ensures Indexed(after, keys, where - {keys[e]}, -1)
    ensures View(where - {keys[e]}, vals) == View(where, vals) - {keys[e]}
    ensures |where - {keys[e]}| == |where| - 1
  {
    assert (where - {keys[e]}).Keys == where.Keys - {keys[e]};
  }

  /** Copying the last pair of a chain over the erased one and emptying the last bucket removes the erased key. */
  lemma IndexReplaced<K,
      V>(meta: seq<Metadatum>, after: seq<Metadatum>, keys: seq<K>, vals: seq<V>, where: map<K, nat>, e: nat, last: nat)
    requires |meta| == |keys| == |vals| && Indexed(meta, keys, where, -1)
    requires e < |meta| && last < |meta| && e != last && meta[e] != EMPTY && meta[last] != EMPTY
        && Empties(meta, after, last)
    ensures Indexed(after, keys[e := keys[last]], (where - {keys[e]})[keys[last] := e], -1)
    ensures View((where - {keys[e]})[keys[last] := e], vals[e := vals[last]]) == View(where, vals) - {keys[e]}
    ensures |(where - {keys[e]})[keys[last] := e]| == |where| - 1
  {
    assert ((where - {keys[e]})[keys[last] := e]).Keys == where.Keys - {keys[e]};
  }

  /** A table without an empty bucket holds as many keys as it has buckets. */
  lemma FullTable<K>(meta: seq<Metadatum>, keys: seq<K>, where: map<K, nat>)
    requires |meta| == |keys| && Indexed(meta, keys, where, -1)
    requires forall b :: 0 <= b < |meta| ==> meta[b] != EMPTY
    ensures |where| >= |meta|
  {
    assert Distinct(keys);
    DistinctSize(keys);
    SubsetSize(Elements(keys), where.Keys);
  }

  /** If the displacement limit stops the probe of a small table, the table has no empty bucket. */
  lemma ProbeExhausted(cap: nat, meta: seq<Metadatum>, home: nat)
    requires PowerOfTwo(cap) && cap <= 1024 && |meta| == cap && home < cap
    requires meta[home] != EMPTY
    requires forall d :: 1 <= d < END ==> meta[Slot(cap, home, d)] != EMPTY
    ensures forall b :: 0 <= b < cap ==> meta[b] != EMPTY
  {
    forall b | 0 <= b < cap ensures meta[b] != EMPTY {
      var d := ProbeReachesEveryBucket(cap, home, b);
      SlotOfHome(cap, home);
    }
  }

  class Header<K(==, 0), V(0)> {
    const hash: K -> HashCode
    const capMask: nat
    const metadata: array<Metadatum>
    const keys: array<K>
    const vals: array<V>
    var size: nat

    /** The home bucket of each occupied bucket's key, and the displacement of the bucket from it. */
    ghost var home: seq<nat>
    ghost var dist: seq<nat>
    /** The bucket of each key. */
    ghost var where: map<K, nat>
    /** The bucket that a failed eviction left out of its chain, or -1. */
    ghost var lost: int
    ghost const at: Probe

    function Cap(): nat {
      if capMask == 0 then 0 else capMask + 1
    }

    function HomeBucket(key: K): (r: nat)
      ensures r < capMask + 1
    {
      HomeOf(hash, capMask + 1, key)
    }

    ghost predicate Shape() {
      && keys.Length == vals.Length == Cap()
      && metadata.Length == (if capMask == 0 then 1 else Cap() + 4)
      && (capMask != 0 ==> PowerOfTwo(Cap()) && Cap() >= MIN_NONZERO_BUCKET_COUNT && IsProbe(Cap(), at))
      && (metadata as object) != keys && (metadata as object) != vals && (keys as object) != vals
    }

    ghost function Meta(): (m: seq<Metadatum>)
      requires Shape()
      reads metadata
      ensures |m| == Cap()
    {
      metadata[..Cap()]
    }

    /** Everything but the index of keys. */
    ghost predicate Linkage()
      reads this, metadata, keys
    {
      && Shape()
      && (if capMask == 0 then metadata[0] == EMPTY else metadata[Cap()] == STOPPER)
      && Chained(at, Meta(), home, dist, lost)
      && Keyed(hash, Meta(), keys[..], home)
    }

    ghost predicate Valid()
      reads this, metadata, keys
    {
      Linkage() && Indexed(Meta(), keys[..], where, -1) && size == |where|
    }

    /** A valid table none of whose keys has been left out of its chain. */
    ghost predicate Sound()
      reads this, metadata, keys
    {
      Valid() && lost == -1
    }

    ghost function Contents(): map<K, V>
      reads this, vals
    {
      View(where, vals[..])
    }

    /** Every bucket within the displacement limit of a home bucket is occupied. */
    ghost predicate Blocked(homeBucket: nat)
      requires Shape() && homeBucket < Cap()
      reads metadata
    {
      forall d :: 1 <= d < END ==> metadata[Slot(Cap(), homeBucket, d)] != EMPTY
    }

    /** The key's home bucket holds a foreign pair that cannot be moved away. */
    ghost predicate EvictionFails(key: K)
      requires Shape()
      reads metadata, keys
    {
      var b := HomeBucket(key);
      b < Cap() && metadata[b] != EMPTY && !metadata[b].home && Blocked(HomeBucket(keys[b]))
    }

    method FindFirstEmpty(homeBucket: nat) returns (found: bool, empty: nat, displacement: nat)
      requires Linkage() && homeBucket < Cap()
      ensures found ==>
                && 1 <= displacement < END
                && empty == Slot(Cap(), homeBucket, displacement)
                && metadata[empty] == EMPTY
      ensures found <==> !Blocked(homeBucket)
    {
      displacement := 1;
      var linearDisplacement := 1;
      while true
        invariant 1 <= displacement < END
        invariant linearDisplacement == Quadratic(displacement)
        invariant forall d :: 1 <= d < displacement ==> metadata[Slot(Cap(), homeBucket, d)] != EMPTY
        decreases END - displacement
      {
        empty := Reduce(homeBucket + linearDisplacement, capMask + 1);
        if metadata[empty] == EMPTY {
          return true, empty, displacement;
        }
        displacement := displacement + 1;
        if displacement == END {
          return false, empty, displacement;
        }
        linearDisplacement := linearDisplacement + displacement;
      }
    }

    method FindInsertLocationInChain(homeBucket: nat, displacementToEmpty: nat) returns (candidate: nat)
      requires Linkage() && homeBucket < Cap()
      requires metadata[homeBucket].home
      requires 1 <= displacementToEmpty < END
      requires metadata[Slot(Cap(), homeBucket, displacementToEmpty)] == EMPTY
      ensures CanLink(at, Meta(), home, dist, lost, candidate, Slot(Cap(), homeBucket, displacementToEmpty),
          displacementToEmpty)
      ensures home[candidate] == homeBucket
    {
      candidate := homeBucket;
      HomeFlag(at, Meta(), home, dist, lost, homeBucket);
      while true
        invariant Linked(Meta(), lost, candidate)
        invariant home[candidate] == homeBucket && dist[candidate] < displacementToEmpty
        decreases displacementToEmpty - dist[candidate]
      {
        var displacement := metadata[candidate].next;
        if displacement > displacementToEmpty {
          return;
        }
        assert LinkLeadsOn(at, Meta(), home, dist, lost, candidate);
        candidate := Slot(capMask + 1, homeBucket, displacement);
      }
    }

    /** Writes a key-element pair into an empty bucket and links it in behind prev. */
    method LinkAfter(prev: nat, empty: nat, displacement: nat, frag: nat, key: K, el: V)
      requires Linkage() && lost < Cap()
      requires CanLink(at, Meta(), home, dist, lost, prev, empty, displacement)
      requires home[prev] == HomeBucket(key) && frag == HashFrag(hash(key))
      modifies this`home, this`dist, metadata, keys, vals
      ensures Linkage()
      ensures Meta() == AfterLink(old(Meta()), prev, empty, displacement, frag)
      ensures keys[..] == old(keys[..])[empty := key]
      ensures vals[..] == old(vals[..])[empty := el]
      ensures home == old(home)[empty := HomeBucket(key)]
    {
      LinkIn(at, Meta(), home, dist, lost, prev, empty, displacement, frag);
      ghost var m := Meta();
      keys[empty] := key;
      vals[empty] := el;
      metadata[empty] := Metadatum(frag, false, metadata[prev].next);
      metadata[prev] := metadata[prev].(next := displacement);
      home := home[empty := home[prev]];
      dist := dist[empty := displacement];
      assert Meta() == AfterLink(m, prev, empty, displacement, frag);
    }

    /** Finds the pair before a bucket on its chain and bends its link past the bucket. */
    method Disconnect(bucket: nat) returns (homeBucket: nat)
      requires Sound() && bucket < Cap()
      requires metadata[bucket] != EMPTY && !metadata[bucket].home
      modifies this`lost, metadata
      ensures Linkage() && lost == bucket
      ensures homeBucket == HomeBucket(keys[bucket]) && homeBucket < Cap() && metadata[homeBucket].home
      ensures metadata[bucket] == old(metadata[bucket])
      ensures forall b :: 0 <= b < Cap() ==> (metadata[b] == EMPTY <==> old(metadata[b]) == EMPTY)
    {
      homeBucket := HomeBucket(keys[bucket]);
      assert Linked(Meta(), -1, bucket);
      var prev := FindPrevious(homeBucket, bucket);
      assert Live(Meta(), -1) == Meta();
      Unlink(at, Meta(), home, dist, prev, bucket);
      NextIsPositive(at, Meta(), home, dist, -1, bucket);
      assert Placed(at, Meta(), home, dist, -1, bucket);
      ghost var m := Meta();
      metadata[prev] := metadata[prev].(next := metadata[bucket].next);
      lost := bucket;
      assert Meta() == AfterUnlink(m, prev, bucket);
    }

    /** Moves the pair of an unlinked bucket into an empty bucket of its chain; the old copy stays behind. */
    method MoveLost(bucket: nat, prev: nat, empty: nat, displacement: nat)
      requires Linkage() && lost == bucket && bucket < Cap()
      requires CanLink(at, Meta(), home, dist, lost, prev, empty, displacement)
      requires home[prev] == HomeBucket(keys[bucket])
      requires Indexed(Meta(), keys[..], where, -1)
      modifies this`home, this`dist, this`where, metadata, keys, vals
      ensures Linkage()
      ensures Indexed(Meta(), keys[..], where, bucket)
      ensures where == old(where)[old(keys[bucket]) := empty]
      ensures Contents() == old(Contents())
    {
      ghost var m, k, v := Meta(), keys[..], vals[..];
      LinkAfter(prev, empty, displacement, metadata[bucket].frag, keys[bucket], vals[bucket]);
      AfterLinkFills(m, prev, empty, displacement, k[bucket]);
      IndexMoved(m, Meta(), k, v, where, bucket, empty);
      where := where[k[bucket] := empty];
    }

    lemma AfterLinkFills(m: seq<Metadatum>, prev: nat, empty: nat, displacement: nat, key: K)
      requires prev < |m| && empty < |m| && m[prev] != EMPTY && 0 < m[prev].next && 0 < displacement
      ensures Fills(m, AfterLink(m, prev, empty, displacement, HashFrag(hash(key))), empty)
    {
    }

    /** Vacates a bucket held by a pair that does not belong there. On failure the pair stays where it is,
        but its chain no longer reaches it. */
    method Evict(bucket: nat) returns (ok: bool)
      requires Sound() && bucket < Cap()
      requires metadata[bucket] != EMPTY && !metadata[bucket].home
      modifies this`home, this`dist, this`where, this`lost, metadata, keys, vals
      ensures Linkage() && lost == bucket
      ensures ok ==> Indexed(Meta(), keys[..], where, bucket)
      ensures !ok ==> Indexed(Meta(), keys[..], where, -1) && where == old(where)
      ensures where.Keys == old(where.Keys) && |where| == old(|where|)
      ensures Contents() == old(Contents())
      ensures ok <==> !old(Blocked(HomeBucket(keys[bucket])))
      ensures !ok ==>
          metadata[bucket] == old(metadata[bucket]) && keys[bucket] == old(keys[bucket])
          && Blocked(HomeBucket(keys[bucket]))
      ensures !ok ==> Cap() > 1024 || size >= Cap()
    {
      var homeBucket := Disconnect(bucket);
      assert Indexed(Meta(), keys[..], where, -1);
      var found, empty, displacement := FindFirstEmpty(homeBucket);
      if !found {
        RefuseSmall(homeBucket);
        return false;
      }
      var prev := FindInsertLocationInChain(homeBucket, displacement);
      MoveLost(bucket, prev, empty, displacement);
      assert where.Keys == old(where.Keys);
      return true;
    }

    lemma RefuseSmall(homeBucket: nat)
      requires Shape() && homeBucket < Cap() && metadata[homeBucket] != EMPTY
      requires Indexed(Meta(), keys[..], where, -1) && size == |where|
      requires Blocked(homeBucket)
      ensures Cap() > 1024 || size >= Cap()
    {
      if Cap() <= 1024 {
        var m := Meta();
        assert forall b :: 0 <= b < Cap() ==> m[b] == metadata[b];
        ProbeExhausted(Cap(), m, homeBucket);
        FullTable(m, keys[..], where);
      }
    }

    /** Finds the bucket before a linked one on its chain. */
    method FindPrevious(homeBucket: nat, bucket: nat) returns (prev: nat)
      requires Linkage() && Linked(Meta(), lost, bucket) && !metadata[bucket].home
      requires homeBucket == HomeBucket(keys[bucket])
      ensures Precedes(Live(Meta(), lost), home, dist, prev, bucket)
    {
      assert Placed(at, Meta(), home, dist, lost, bucket);
      HomeFlag(at, Meta(), home, dist, lost, homeBucket);
      prev := homeBucket;
      while true
        invariant Linked(Meta(), lost, prev)
        invariant home[prev] == homeBucket && dist[prev] < dist[bucket]
        decreases dist[bucket] - dist[prev]
      {
        Follow(at, Meta(), home, dist, lost, prev, bucket);
        var next := Slot(capMask + 1, homeBucket, metadata[prev].next);
        if next == bucket {
          break;
        }
        prev := next;
      }
      LiveLinked(Meta(), lost, prev);
      LiveLinked(Meta(), lost, bucket);
    }

    /** Case 1 of insertion: the home bucket is empty or holds a pair that does not belong there. */
    method InsertAtHome(homeBucket: nat, key: K, el: V) returns (ok: bool)
      requires Sound() && homeBucket < Cap() && homeBucket == HomeBucket(key)
      requires !metadata[homeBucket].home && key !in where
      modifies this, metadata, keys, vals
      ensures Valid()
      ensures ok ==>
          lost == -1 && where.Keys == old(where.Keys) + {key} && where[key] == homeBucket
          && size == old(size) + 1
      ensures ok ==> Contents() == old(Contents())[key := el]
      ensures !ok ==> Contents() == old(Contents()) && where == old(where) && lost != -1
      ensures ok <==> !old(EvictionFails(key))
      ensures !ok ==> EvictionFails(key)
      ensures !ok ==> Cap() > 1024 || old(size) >= Cap()
    {
      hide Indexed, Keyed, Chained, View, IsProbe, Blocked;
      ok := Vacate(homeBucket, key);
      if ok {
        PlaceAtHome(homeBucket, key, el);
      }
    }

    /** The home bucket is free or a foreign pair has been moved out of it, unless that pair cannot be moved. */
    method Vacate(homeBucket: nat, key: K) returns (ok: bool)
      requires Sound() && homeBucket < Cap() && homeBucket == HomeBucket(key)
      requires !metadata[homeBucket].home && key !in where
      modifies this`home, this`dist, this`where, this`lost, metadata, keys, vals
      ensures Linkage() && size == |where| && where.Keys == old(where.Keys) && Contents() == old(Contents())
      ensures ok ==> if lost == -1 then metadata[homeBucket] == EMPTY else lost == homeBucket
      ensures Indexed(Meta(), keys[..], where, if ok then lost else -1)
      ensures !ok ==> where == old(where) && lost != -1 && (Cap() > 1024 || old(size) >= Cap())
      ensures ok <==> !old(EvictionFails(key))
      ensures !ok ==> EvictionFails(key)
    {
      ok := true;
      if metadata[homeBucket] != EMPTY {
        ok := Evict(homeBucket);
      }
    }

    method PlaceAtHome(homeBucket: nat, key: K, el: V)
      requires Linkage() && homeBucket < Cap() && homeBucket == HomeBucket(key)
      requires if lost == -1 then metadata[homeBucket] == EMPTY else lost == homeBucket
      requires Indexed(Meta(), keys[..], where, lost) && key !in where && size == |where|
      modifies this, metadata, keys, vals
      ensures Sound()
      ensures where == old(where)[key := homeBucket] && size == old(size) + 1
      ensures Contents() == old(Contents())[key := el]
    {
      IndexAdded(Meta(), Meta()[homeBucket := Metadatum(HashFrag(hash(key)), true, END)], keys[..], vals[..], where,
          lost, homeBucket, key, el);
      Begin(homeBucket, key, el);
      where := where[key := homeBucket];
      size := size + 1;
    }

    /** Writes a pair into its free or vacated home bucket, where it begins a chain. */
    method Begin(homeBucket: nat, key: K, el: V)
      requires Linkage() && homeBucket < Cap() && homeBucket == HomeBucket(key)
      requires if lost == -1 then metadata[homeBucket] == EMPTY else lost == homeBucket
      modifies this`home, this`dist, this`lost, metadata, keys, vals
      ensures Linkage() && lost == -1
      ensures Meta() == old(Meta())[homeBucket := Metadatum(HashFrag(hash(key)), true, END)]
      ensures keys[..] == old(keys[..])[homeBucket := key] && vals[..] == old(vals[..])[homeBucket := el]
    {
      ghost var m := Meta();
      StartChain(at, m, home, dist, lost, homeBucket, HashFrag(hash(key)));
      keys[homeBucket] := key;
      vals[homeBucket] := el;
      metadata[homeBucket] := Metadatum(HashFrag(hash(key)), true, END);
      home := home[homeBucket := homeBucket];
      dist := dist[homeBucket := 0];
      lost := -1;
      assert Meta() == m[homeBucket := Metadatum(HashFrag(hash(key)), true, END)];
    }

    /** Case 2 of insertion: the home bucket starts a chain that does not hold the key. */
    method InsertInChain(homeBucket: nat, key: K, el: V) returns (itr: Option<nat>)
      requires Sound() && homeBucket < Cap() && homeBucket == HomeBucket(key)
      requires metadata[homeBucket].home && key !in where
      modifies this, metadata, keys, vals
      ensures Sound()
      ensures itr.Some? ==> where == old(where)[key := itr.value] && size == old(size) + 1
      ensures itr.Some? ==> Contents() == old(Contents())[key := el]
      ensures itr.None? ==> Contents() == old(Contents()) && where == old(where) && metadata[homeBucket].home
      ensures itr.None? ==> Cap() > 1024 || old(size) >= Cap()
    {
      var found, empty, displacement := FindFirstEmpty(homeBucket);
      if !found {
        RefuseSmall(homeBucket);
        return None;
      }
      var prev := FindInsertLocationInChain(homeBucket, displacement);
      ghost var m, k, v := Meta(), keys[..], vals[..];
      LinkAfter(prev, empty, displacement, HashFrag(hash(key)), key, el);
      AfterLinkFills(m, prev, empty, displacement, key);
      IndexAdded(m, Meta(), k, v, where, -1, empty, key, el);
      where := where[key := empty];
      size := size + 1;
      return Some(empty);
    }

    /** Walks the chain of the key's home bucket. A key that a failed eviction left behind is not found. */
    method Find(key: K, homeBucket: nat) returns (itr: Option<nat>)
      requires Valid() && homeBucket == HomeBucket(key) && homeBucket < Cap()
      requires metadata[homeBucket].home
      ensures itr.Some? <==> key in where && where[key] != lost
      ensures itr.Some? ==> itr.value == where[key]
    {
      HomeFlag(at, Meta(), home, dist, lost, homeBucket);
      var bucket := homeBucket;
      ghost var live := key in where && where[key] != lost;
      if live {
        assert Linked(Meta(), lost, where[key]);
      }
      while true
        invariant Linked(Meta(), lost, bucket) && home[bucket] == homeBucket
        invariant dist[bucket] < END
        invariant live ==> dist[bucket] <= dist[where[key]]
        decreases END - dist[bucket]
      {
        if live && dist[bucket] == dist[where[key]] {
          SamePlace(at, Meta(), home, dist, lost, bucket, where[key]);
        }
        if metadata[bucket].frag == HashFrag(hash(key)) && keys[bucket] == key {
          return Some(bucket);
        }
        if live {
          Follow(at, Meta(), home, dist, lost, bucket, where[key]);
        }
        var displacement := metadata[bucket].next;
        if displacement == END {
          return None;
        }
        assert LinkLeadsOn(at, Meta(), home, dist, lost, bucket);
        bucket := Slot(capMask + 1, homeBucket, displacement);
        assert Placed(at, Meta(), home, dist, lost, bucket);
      }
    }

    /** cc_map_get: the bucket of the key, or None. */
    method Get(key: K) returns (itr: Option<nat>)
      requires Valid()
      ensures itr.Some? <==> key in Contents() && where[key] != lost
      ensures itr.Some? ==> itr.value == where[key] && keys[itr.value] == key && Contents()[key] == vals[itr.value]
    {
      var homeBucket := HomeBucket(key);
      KeyHasChain(key);
      if !metadata[homeBucket].home {
        return None;
      }
      itr := Find(key, homeBucket);
    }

    /** A key that its chain reaches has a home-flagged home bucket. */
    lemma KeyHasChain(key: K)
      requires Valid()
      ensures key in where && where[key] != lost ==> HomeBucket(key) < Cap() && metadata[HomeBucket(key)].home
    {
      if key in where && where[key] != lost {
        assert Linked(Meta(), lost, where[key]);
        assert Placed(at, Meta(), home, dist, lost, where[key]);
      }
    }

    method Overwrite(bucket: nat, key: K, el: V)
      requires Sound() && key in where && where[key] == bucket
      modifies keys, vals
      ensures Sound() && Contents() == old(Contents())[key := el]
    {
      keys[bucket] := key;
      vals[bucket] := el;
      assert keys[..] == old(keys[..]);
      assert vals[..] == old(vals[..])[bucket := el];
    }

    /** cc_map_reinsert: insertion of a key known to be absent, without the load-factor check. */
    method Reinsert(el: V, key: K) returns (itr: Option<nat>)
      requires Sound() && capMask != 0 && key !in where
      modifies this, metadata, keys, vals
      ensures Valid()
      ensures itr.Some? ==> Sound() && key in where && itr.value == where[key]
      ensures itr.Some? ==> where.Keys == old(where.Keys) + {key} && size == old(size) + 1
      ensures itr.Some? ==> Contents() == old(Contents())[key := el]
      ensures itr.None? ==> Contents() == old(Contents()) && where == old(where)
      ensures lost != -1 <==> old(EvictionFails(key))
      ensures itr.None? ==> (lost != -1 <==> EvictionFails(key))
      ensures itr.None? ==> Cap() > 1024 || old(size) >= Cap()
    {
      var homeBucket := HomeBucket(key);
      if !metadata[homeBucket].home {
        var ok := InsertAtHome(homeBucket, key, el);
        return if ok then Some(homeBucket) else None;
      }
      itr := InsertInChain(homeBucket, key, el);
    }

    /** cc_map_insert_raw: None if the load factor or the displacement limit stops the insertion. It searches
        the chain as cc_map_get does and, past the load-factor check, inserts as cc_map_reinsert does. */
    method InsertRaw(el: V, key: K, replace: bool, maxLoad: real) returns (itr: Option<nat>)
      requires Sound() && maxLoad >= 0.0
      modifies this, metadata, keys, vals
      ensures Valid()
      ensures itr.Some? ==> Sound() && key in where && itr.value == where[key]
      ensures itr.Some? ==> Contents() == Inserted(old(Contents()), key, el, replace)
      ensures itr.None? ==> Contents() == old(Contents()) && where == old(where) && key !in where
      ensures lost != -1 <==>
          key !in old(where) && old(size) + 1 <= LoadLimit(maxLoad, Cap())
          && old(EvictionFails(key))
      ensures itr.None? ==> (lost != -1 <==> old(size) + 1 <= LoadLimit(maxLoad, Cap()) && EvictionFails(key))
      ensures itr.None? ==> old(size) + 1 > LoadLimit(maxLoad, Cap()) || Cap() > 1024 || old(size) >= Cap()
    {
      itr := Get(key);
      if itr.Some? {
        if replace {
          Overwrite(itr.value, key, el);
        }
        return;
      }
      NoRoomInPlaceholder(maxLoad);
      if size + 1 > LoadLimit(maxLoad, Cap()) {
        return None;
      }
      itr := Reinsert(el, key);
    }

    lemma NoRoomInPlaceholder(maxLoad: real)
      ensures capMask == 0 ==> LoadLimit(maxLoad, Cap()) == 0
    {
    }

    lemma Bounds()
      requires Linkage()
      ensures |home| == |dist| == Cap() && (lost == -1 || 0 <= lost < Cap())
    {
    }

    lemma Parts()
      requires Valid()
      ensures Linkage() && Indexed(Meta(), keys[..], where, -1) && size == |where|
      ensures Contents() == View(where, vals[..])
    {
    }

    /** The table is what its parts say. */
    lemma Assembled(m: seq<Metadatum>, k: seq<K>, v: seq<V>)
      requires Shape() && capMask != 0 && metadata[Cap()] == STOPPER
      requires Meta() == m && keys[..] == k && vals[..] == v && |home| == Cap()
      requires Chained(at, m, home, dist, lost) && Keyed(hash, m, k, home) && Indexed(m, k, where, -1)
          && size == |where|
      ensures Valid() && Contents() == View(where, v)
    {
    }

    lemma AtHome(bucket: nat)
      requires Linkage() && bucket < Cap() && metadata[bucket].home
      ensures HomeBucket(keys[bucket]) == bucket
    {
      HomeFlag(at, Meta(), home, dist, lost, bucket);
    }

    /** Erase, case 1: the pair is the only one of its chain. */
    method EraseOnly(bucket: nat)
      requires Valid() && bucket < Cap() && metadata[bucket].home && metadata[bucket].next == END
      modifies this`size, this`where, metadata
      ensures Valid() && Contents() == old(Contents()) - {keys[bucket]}
      ensures Visits(old(where), where, bucket, true)
    {
      ghost var m, k, v := Meta(), keys[..], vals[..];
      EraseOnlyChains(bucket);
      IndexRemoved(m, m[bucket := EMPTY], k, v, where, bucket);
      where := where - {k[bucket]};
      size := size - 1;
      Clear(bucket);
    }

    lemma EraseOnlyChains(bucket: nat)
      requires Linkage() && bucket < Cap() && metadata[bucket].home && metadata[bucket].next == END
      ensures Chained(at, Meta()[bucket := EMPTY], home, dist, lost)
    {
      Bounds();
      EndLive(at, Meta(), home, dist, lost, bucket);
    }

    method Clear(bucket: nat)
      requires Shape() && bucket < Cap()
      modifies metadata
      ensures Meta() == old(Meta())[bucket := EMPTY] && metadata[Cap()] == old(metadata[Cap()])
    {
      metadata[bucket] := EMPTY;
    }

    /** Ends the chain at prev and empties the bucket that followed it. */
    method CutOff(prev: nat, bucket: nat, ghost w: map<K, nat>)
      requires Shape() && prev < Cap() && bucket < Cap() && prev != bucket && metadata[bucket].next == END && size > 0
      modifies this`size, this`where, metadata
      ensures Meta() == CutAt(old(Meta()), prev, bucket) && metadata[Cap()] == old(metadata[Cap()])
      ensures size == old(size) - 1 && where == w
    {
      metadata[prev] := metadata[prev].(next := END);
      metadata[bucket] := EMPTY;
      size := size - 1;
      where := w;
    }

    /** Erase, case 2: the pair is the last of several. */
    method EraseLast(bucket: nat)
      requires Valid() && Linked(Meta(), lost, bucket)
      requires !metadata[bucket].home && metadata[bucket].next == END
      modifies this`size, this`where, metadata
      ensures Valid() && Contents() == old(Contents()) - {keys[bucket]}
      ensures Visits(old(where), where, bucket, true)
    {
      var prev := FindPrevious(HomeBucket(keys[bucket]), bucket);
      ghost var m, k, v := Meta(), keys[..], vals[..];
      EraseLastFacts(m, k, v, prev, bucket);
      hide *;
      CutOff(prev, bucket, where - {k[bucket]});
      Assembled(CutAt(m, prev, bucket), k, v);
    }

    lemma EraseLastFacts(m: seq<Metadatum>, k: seq<K>, v: seq<V>, prev: nat, bucket: nat)
      requires Valid() && m == Meta() && k == keys[..] && v == vals[..]
      requires Linked(m, lost, bucket) && m[bucket].next == END && Precedes(Live(m, lost), home, dist, prev, bucket)
      ensures Shape() && bucket < Cap() && prev < Cap() && prev != bucket && capMask != 0 && metadata[Cap()] == STOPPER
      ensures |m| == |k| == |v| == |home| == Cap() && metadata[bucket].next == END
      ensures var after, w := CutAt(m, prev, bucket), where - {k[bucket]};
              && Chained(at, after, home, dist, lost) && Keyed(hash, after, k, home) && Indexed(after, k, w, -1)
                  && |w| == size - 1
              && View(w, v) == Contents() - {k[bucket]} && Visits(where, w, bucket, true)
    {
      Bounds();
      Parts();
      hide Indexed, Keyed, Chained, Visits, View, IsProbe, HomeOf, Valid, Contents;
      LiveLinked(m, lost, prev);
      LiveLinked(m, lost, bucket);
      EraseLastChains(prev, bucket);
      EraseLastIndex(m, k, v, prev, bucket);
    }

    lemma EraseLastChains(prev: nat, bucket: nat)
      requires Linkage() && Linked(Meta(), lost, bucket) && metadata[bucket].next == END
      requires Precedes(Live(Meta(), lost), home, dist, prev, bucket)
      ensures Chained(at, CutAt(Meta(), prev, bucket), home, dist, lost)
    {
      Bounds();
      CutLive(at, Meta(), home, dist, lost, prev, bucket);
    }

    lemma EraseLastIndex(m: seq<Metadatum>, k: seq<K>, v: seq<V>, prev: nat, bucket: nat)
      requires |m| == |k| == |v| == |home| && Indexed(m, k, where, -1) && Keyed(hash, m, k, home)
      requires bucket < |m| && prev < |m| && bucket != prev && m[bucket] != EMPTY && m[prev] != EMPTY
          && m[bucket].next == END
      ensures var after := CutAt(m, prev, bucket);
              Keyed(hash, after, k, home) && Indexed(after, k, where - {k[bucket]}, -1)
      ensures View(where - {k[bucket]}, v) == View(where, v) - {k[bucket]}
      ensures |where - {k[bucket]}| == |where| - 1
      ensures Visits(where, where - {k[bucket]}, bucket, true)
    {
      var after := CutAt(m, prev, bucket);
      assert Empties(m, after, bucket);
      KeyedBySubset(m, after, k);
      IndexRemoved(m, after, k, v, where, bucket);
    }

    lemma KeyedBySubset(m: seq<Metadatum>, after: seq<Metadatum>, k: seq<K>)
      requires |m| == |after| == |k| == |home| && Keyed(hash, m, k, home)
      requires forall b :: 0 <= b < |m| && after[b] != EMPTY ==> m[b] != EMPTY && after[b].frag == m[b].frag
      ensures Keyed(hash, after, k, home)
    {
    }

    /** The last two buckets of the chain from a bucket that is not the last. */
    method FindLastTwo(bucket: nat, homeBucket: nat) returns (prev: nat, last: nat)
      requires Linkage() && Linked(Meta(), lost, bucket) && metadata[bucket].next != END
      requires homeBucket == HomeBucket(keys[bucket])
      ensures Precedes(Live(Meta(), lost), home, dist, prev, last) && home[last] == homeBucket
      ensures Linked(Meta(), lost, prev) && Linked(Meta(), lost, last)
      ensures metadata[last].next == END && last != bucket
    {
      last := bucket;
      assert Placed(at, Meta(), home, dist, lost, bucket);
      while true
        invariant Linked(Meta(), lost, last) && home[last] == homeBucket
        invariant metadata[last].next != END
        invariant dist[last] < END && dist[bucket] <= dist[last]
        decreases END - dist[last]
      {
        prev := last;
        assert LinkLeadsOn(at, Meta(), home, dist, lost, prev);
        last := Slot(capMask + 1, homeBucket, metadata[last].next);
        assert Placed(at, Meta(), home, dist, lost, last);
        if metadata[last].next == END {
          LiveLinked(Meta(), lost, prev);
          LiveLinked(Meta(), lost, last);
          return;
        }
      }
    }

    /** Copies the last bucket of a chain over another of its buckets and empties it. */
    method CopyOver(bucket: nat, prev: nat, last: nat, ghost w: map<K, nat>)
      requires Shape() && bucket < Cap() && prev < Cap() && last < Cap() && bucket != last && prev != last
      requires metadata[last].next == END && size > 0
      modifies this`size, this`where, metadata, keys, vals
      ensures Meta() == WithoutLast(old(Meta()), bucket, prev, last) && metadata[Cap()] == old(metadata[Cap()])
      ensures keys[..] == old(keys[..])[bucket := old(keys[last])]
          && vals[..] == old(vals[..])[bucket := old(vals[last])]
      ensures size == old(size) - 1 && where == w
    {
      keys[bucket] := keys[last];
      vals[bucket] := vals[last];
      metadata[bucket] := metadata[bucket].(frag := metadata[last].frag);
      metadata[prev] := metadata[prev].(next := END);
      metadata[last] := EMPTY;
      size := size - 1;
      where := w;
    }

    /** Moves the last pair of a chain over another of its pairs, whose key is thereby erased. */
    method MoveLastOver(bucket: nat, prev: nat, last: nat)
      requires Valid() && Linked(Meta(), lost, bucket) && bucket != last
      requires Linked(Meta(), lost, prev) && Linked(Meta(), lost, last)
          && Precedes(Live(Meta(), lost), home, dist, prev, last)
      requires metadata[last].next == END && home[bucket] == home[last]
      modifies this`size, this`where, metadata, keys, vals
      ensures Valid() && Contents() == old(Contents()) - {old(keys[bucket])}
      ensures Visits(old(where), where, bucket, last < bucket) && metadata[bucket] != EMPTY
    {
      hide Indexed, Keyed, Chained, Visits, View, IsProbe, Contents, Precedes, Live, WithoutLast;
      ghost var m, k, v := Meta(), keys[..], vals[..];
      EraseInnerFacts(m, k, v, bucket, prev, last);
      hide *;
      CopyOver(bucket, prev, last, (where - {k[bucket]})[k[last] := bucket]);
      Assembled(WithoutLast(m, bucket, prev, last), k[bucket := k[last]], v[bucket := v[last]]);
    }

    lemma EraseInnerFacts(m: seq<Metadatum>, k: seq<K>, v: seq<V>, bucket: nat, prev: nat, last: nat)
      requires Valid() && m == Meta() && k == keys[..] && v == vals[..]
      requires Linked(m, lost, bucket) && bucket != last && Linked(m, lost, prev) && Linked(m, lost, last)
      requires Precedes(Live(m, lost), home, dist, prev, last) && m[last].next == END && home[bucket] == home[last]
      ensures Shape() && bucket < Cap() && prev < Cap() && last < Cap() && prev != last && capMask != 0
          && metadata[Cap()] == STOPPER
      ensures |m| == |k| == |v| == |home| == Cap() && metadata[last].next == END && metadata[bucket] != EMPTY
      ensures var after, w := WithoutLast(m, bucket, prev, last), (where - {k[bucket]})[k[last] := bucket];
              && Chained(at, after, home, dist, lost) && Keyed(hash, after, k[bucket := k[last]], home)
              && Indexed(after, k[bucket := k[last]], w, -1) && |w| == size - 1
              && View(w, v[bucket := v[last]]) == Contents() - {k[bucket]} && Visits(where, w, bucket, last < bucket)
              && after[bucket] != EMPTY
    {
      Bounds();
      Parts();
      hide Indexed, Keyed, Chained, Visits, View, IsProbe, HomeOf, Valid, Contents;
      EraseInnerChains(bucket, prev, last);
      EraseInnerIndex(m, k, v, bucket, prev, last);
      VisitsReplaced(m, k, where, bucket, last);
    }

    /** Erase, case 3: the pair is followed by others, the last of which takes its place. */
    method EraseInner(bucket: nat, homeBucket: nat) returns (last: nat)
      requires Valid() && Linked(Meta(), lost, bucket) && metadata[bucket].next != END
      requires homeBucket == HomeBucket(keys[bucket])
      modifies this`size, this`where, metadata, keys, vals
      ensures Valid() && Contents() == old(Contents()) - {old(keys[bucket])}
      ensures Visits(old(where), where, bucket, last < bucket) && metadata[bucket] != EMPTY
    {
      var prev;
      prev, last := FindLastTwo(bucket, homeBucket);
      MoveLastOver(bucket, prev, last);
    }

    lemma KeyedReplaced(m: seq<Metadatum>, after: seq<Metadatum>, k: seq<K>, bucket: nat, last: nat)
      requires |m| == |after| == |k| == |home| && Keyed(hash, m, k, home)
      requires bucket < |m| && last < |m| && m[last] != EMPTY && home[bucket] == home[last]
      requires forall b :: 0 <= b < |m| && after[b] != EMPTY ==>
                 m[b] != EMPTY && after[b].frag == m[if b == bucket then last else b].frag
      ensures Keyed(hash, after, k[bucket := k[last]], home)
    {
    }

    lemma EraseInnerIndex(m: seq<Metadatum>, k: seq<K>, v: seq<V>, bucket: nat, prev: nat, last: nat)
      requires |m| == |k| == |v| == |home| && Indexed(m, k, where, -1) && Keyed(hash, m, k, home)
      requires bucket < |m| && prev < |m| && last < |m| && bucket != last && prev != last
      requires m[bucket] != EMPTY && m[last] != EMPTY && m[prev] != EMPTY && home[bucket] == home[last]
      requires 0 < m[bucket].next && m[last].next == END
      ensures var after := WithoutLast(m, bucket, prev, last);
              && Keyed(hash, after, k[bucket := k[last]], home)
              && Indexed(after, k[bucket := k[last]], (where - {k[bucket]})[k[last] := bucket], -1)
      ensures View((where - {k[bucket]})[k[last] := bucket], v[bucket := v[last]]) == View(where, v) - {k[bucket]}
      ensures |(where - {k[bucket]})[k[last] := bucket]| == |where| - 1
    {
      var after := WithoutLast(m, bucket, prev, last);
      assert Empties(m, after, last);
      KeyedReplaced(m, after, k, bucket, last);
      IndexReplaced(m, after, k, v, where, bucket, last);
    }

    lemma EraseInnerChains(bucket: nat, prev: nat, last: nat)
      requires Linkage() && Linked(Meta(), lost, bucket) && bucket != last
      requires Linked(Meta(), lost, prev) && Linked(Meta(), lost, last)
          && Precedes(Live(Meta(), lost), home, dist, prev, last)
      ensures Chained(at, WithoutLast(Meta(), bucket, prev, last), home, dist, lost)
      ensures 0 < metadata[bucket].next
    {
      Bounds();
      ReplaceLive(at, Meta(), home, dist, lost, bucket, prev, last);
    }

    /** cc_map_erase_raw. The result says whether a forward iteration standing on the bucket must move on. */
    method EraseRaw(bucket: nat) returns (advance: bool)
      requires Valid() && Linked(Meta(), lost, bucket)
      modifies this`size, this`where, metadata, keys, vals
      ensures Valid() && Contents() == old(Contents()) - {old(keys[bucket])}
      ensures Visits(old(where), where, bucket, advance)
      ensures !advance ==> metadata[bucket] != EMPTY
    {
      if metadata[bucket].home && metadata[bucket].next == END {
        EraseOnly(bucket);
        return true;
      }
      if metadata[bucket].next == END {
        EraseLast(bucket);
        return true;
      }
      if metadata[bucket].home {
        AtHome(bucket);
      }
      var homeBucket := if metadata[bucket].home then bucket else HomeBucket(keys[bucket]);
      var last := EraseInner(bucket, homeBucket);
      return last < bucket;
    }

    /** cc_map_erase: removes the key and says whether it was there. A key that a failed insertion has left out of its
        chain is not found, and stays. */
    method Erase(key: K) returns (found: bool)
      requires Valid()
      modifies this`size, this`where, metadata, keys, vals
      ensures Valid()
      ensures found <==> key in old(Contents()) && old(where)[key] != lost
      ensures Contents() == if found then old(Contents()) - {key} else old(Contents())
    {
      var itr := Get(key);
      if itr.None? {
        return false;
      }
      assert Linked(Meta(), lost, itr.value);
      var advance := EraseRaw(itr.value);
      return true;
    }

    /** The shared placeholder, which stands for a map without storage. */
    constructor Placeholder(hash: K -> HashCode)
      ensures Sound() && capMask == 0 && Contents() == map[] && size == 0
      ensures this.hash == hash
    {
      this.hash := hash;
      capMask, size := 0, 0;
      metadata := new Metadatum[1](_ => EMPTY);
      keys := new K[0];
      vals := new V[0];
      home, dist, where, lost := [], [], map[], -1;
      at := (h, d) => h;
    }

    /** An empty table of the given capacity. */
    constructor Empty(hash: K -> HashCode, cap: nat)
      requires PowerOfTwo(cap) && cap >= MIN_NONZERO_BUCKET_COUNT
      ensures Sound() && Cap() == cap && Contents() == map[] && size == 0
      ensures this.hash == hash && fresh(metadata) && fresh(keys) && fresh(vals)
    {
      this.hash := hash;
      capMask, size := cap - 1, 0;
      metadata := new Metadatum[cap + 4](_ => EMPTY);
      keys := new K[cap];
      vals := new V[cap];
      home, dist, where, lost := seq(cap, _ => 0), seq(cap, _ => 0), map[], -1;
      at := (h, d) => Slot(cap, h, d);
      new;
      metadata[cap] := STOPPER;
      forall h: nat | h < cap ensures at(h, 0) == h {
        SlotOfHome(cap, h);
      }
    }
  }

  function Inserted<K, V>(m: map<K, V>, key: K, el: V, replace: bool): map<K, V> {
    if key in m && !replace then m else m[key := el]
  }
}
