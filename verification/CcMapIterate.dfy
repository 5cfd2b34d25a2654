/** Forward iteration over a cc_map table, with erasure of the element the iteration stands on. */
module CcMapIterate {
  import opened Pigeonhole
  import opened MapChains
  import opened CcMap

  /** The bucket at or after `bucket` that a scan stops at: the first occupied one, or the end. */
  ghost predicate IsNextOccupied(meta: seq<Metadatum>, bucket: nat, b: nat) {
    && bucket <= b <= |meta|
    && (b < |meta| ==> meta[b] != EMPTY)
    && forall i :: bucket <= i < b ==> meta[i] == EMPTY
  }

  /** The index of the first nonzero metadatum among four, or 4. */
  function FirstNonzero(four: seq<Metadatum>): (i: nat)
    requires |four| == 4
    ensures i <= 4 && (i < 4 ==> four[i] != EMPTY)
    ensures forall j :: 0 <= j < i ==> four[j] == EMPTY
  {
    if four[0] != EMPTY then 0 else if four[1] != EMPTY then 1
    else if four[2] != EMPTY then 2 else if four[3] != EMPTY then 3 else 4
  }

  ghost predicate EmptyBetween(meta: seq<Metadatum>, from: nat, to: nat) {
    to <= |meta| && forall i :: from <= i < to ==> meta[i] == EMPTY
  }

  /** Four metadata at a time: the scan goes on, or stops at the first one that is not empty. */
  lemma LeapStep(meta: seq<Metadatum>, cap: nat, bucket: nat, b: nat, first: nat)
    requires cap + 4 <= |meta| && meta[cap] == STOPPER && bucket <= b <= cap && EmptyBetween(meta, bucket, b)
    requires first == FirstNonzero(meta[b..b + 4])
    ensures if first < 4 then IsNextOccupied(meta[..cap], bucket, b + first)
        else b + 4 <= cap && EmptyBetween(meta, bucket, b + 4)
  {
    var four := meta[b..b + 4];
    assert forall i :: b <= i < b + first ==> meta[i] == four[i - b];
    assert b + 4 > cap ==> four[cap - b] == STOPPER;
    assert first < 4 ==> four[first] == meta[b + first];
  }

  /** cc_map_leap_forward: reads four metadata at a time; the stopper after the last bucket ends the scan. */
  method LeapForward<K(0), V(0)>(m: Header<K, V>, bucket: nat) returns (b: nat)
    requires m.Valid() && m.capMask != 0 && bucket <= m.Cap()
    ensures IsNextOccupied(m.Meta(), bucket, b)
  {
    b := bucket;
    ghost var meta := m.metadata[..];
    while true
      invariant bucket <= b <= m.Cap() && EmptyBetween(meta, bucket, b)
      decreases m.Cap() - b
    {
      var four := m.metadata[b..b + 4];
      assert four == meta[b..b + 4];
      var first := FirstNonzero(four);
      LeapStep(meta, m.Cap(), bucket, b, first);
      if first < 4 {
        return b + first;
      }
      b := b + 4;
    }
  }

  /** cc_map_first */
  method First<K(0), V(0)>(m: Header<K, V>) returns (b: nat)
    requires m.Valid()
    ensures IsNextOccupied(m.Meta(), 0, b)
  {
    if m.capMask == 0 {
      return 0;
    }
    b := LeapForward(m, 0);
  }

  /** cc_map_erase_itr: erases the pair of the bucket and returns the bucket the iteration goes on with. */
  method EraseItr<K(0), V(0)>(m: Header<K, V>, bucket: nat) returns (b: nat)
    requires m.Sound() && bucket < m.Cap() && m.metadata[bucket] != EMPTY
    modifies m, m.metadata, m.keys, m.vals
    ensures m.Sound() && m.Contents() == old(m.Contents()) - {old(m.keys[bucket])}
    ensures b <= m.Cap() && (b < m.Cap() ==> m.metadata[b] != EMPTY)
    ensures forall k :: k in m.where ==> k in old(m.where) && (m.where[k] >= b <==> old(m.where)[k] > bucket)
  {
    var advance := m.EraseRaw(bucket);
    b := bucket;
    if advance {
      b := LeapForward(m, bucket + 1);
      NextBucket(m.Meta(), m.keys[..], m.where, bucket, b);
    }
  }

  /** What is still to be visited lies at or after bucket b; what was erased was visited and chosen. */
  ghost predicate InProgress<K,
      V>(all: map<K, V>, now: map<K, V>, where: map<K, nat>, visited: seq<K>, erase: (nat, K) -> bool, b: nat) {
    && Distinct(visited)
    && where.Keys == now.Keys
    && (forall k :: k in all ==> k in visited || (k in where && where[k] >= b))
    && (forall k :: k in where && where[k] >= b ==> k !in visited)
    && (forall k :: k in now ==> k in all && now[k] == all[k])
    && (forall i :: 0 <= i < |visited| ==> visited[i] in all && (visited[i] in now <==> !erase(i, visited[i])))
  }

  /** One step of the iteration, from bucket b with this key on to bucket next. */
  lemma Step<K, V>(all: map<K, V>, now: map<K, V>, where: map<K, nat>, now': map<K, V>, where': map<K, nat>,
                   visited: seq<K>, erase: (nat, K) -> bool, b: nat, next: nat, key: K)
    requires InProgress(all, now, where, visited, erase, b)
    requires key in where && where[key] == b
    requires forall k :: k in where && where[k] == b ==> k == key
    requires now' == (if erase(|visited|, key) then now - {key} else now) && where'.Keys == now'.Keys
    requires forall k :: k in where' ==> (where'[k] >= next <==> where[k] > b)
    ensures InProgress(all, now', where', visited + [key], erase, next)
    ensures |visited| < |all|
  {
    var v := visited + [key];
    forall k | k in all ensures k in v || (k in where' && where'[k] >= next) {
      if k in visited {
        assert k in v;
      } else if k == key {
        assert v[|visited|] == key;
      }
    }
    DistinctSize(v);
    forall k | k in Elements(v) ensures k in all.Keys {
      assert k in v;
    }
    SubsetSize(Elements(v), all.Keys);
    assert |all| == |all.Keys|;
  }

  lemma Finished<K, V>(all: map<K, V>, now: map<K, V>, where: map<K, nat>, visited: seq<K>, erase: (nat, K) -> bool,
      b: nat)
    requires InProgress(all, now, where, visited, erase, b)
    requires forall k :: k in where ==> where[k] < b
    ensures Elements(visited) == all.Keys
  {
  }

  lemma NextBucket<K>(meta: seq<Metadatum>, keys: seq<K>, where: map<K, nat>, bucket: nat, b: nat)
    requires |meta| == |keys| && Indexed(meta, keys, where, -1)
    requires IsNextOccupied(meta, bucket + 1, b)
    ensures forall k :: k in where ==> (where[k] >= b <==> where[k] > bucket)
  {
  }

  lemma OccupiedBucket<K(0), V(0)>(m: Header<K, V>, b: nat)
    requires m.Valid() && b < m.Cap() && m.metadata[b] != EMPTY
    ensures m.keys[b] in m.where && m.where[m.keys[b]] == b
    ensures forall k :: k in m.where && m.where[k] == b ==> k == m.keys[b]
    ensures m.where.Keys == m.Contents().Keys
  {
    assert m.Meta()[b] == m.metadata[b];
  }

  /** Moves on from a bucket, erasing its pair first if asked to. */
  method MoveOn<K(0), V(0)>(m: Header<K, V>, bucket: nat, eraseIt: bool) returns (b: nat)
    requires m.Sound() && bucket < m.Cap() && m.metadata[bucket] != EMPTY
    modifies m, m.metadata, m.keys, m.vals
    ensures m.Sound() && m.where.Keys == m.Contents().Keys
    ensures m.Contents() == if eraseIt then old(m.Contents()) - {old(m.keys[bucket])} else old(m.Contents())
    ensures b <= m.Cap() && (b < m.Cap() ==> m.metadata[b] != EMPTY)
    ensures forall k :: k in m.where ==> k in old(m.where) && (m.where[k] >= b <==> old(m.where)[k] > bucket)
  {
    if eraseIt {
      b := EraseItr(m, bucket);
    } else {
      b := LeapForward(m, bucket + 1);
      NextBucket(m.Meta(), m.keys[..], m.where, bucket, b);
    }
  }

  /** A forward iteration that erases the elements `erase` chooses, given how many were visited before. */
  method IterateErasing<K(0), V(0)>(m: Header<K, V>, erase: (nat, K) -> bool) returns (visited: seq<K>)
    requires m.Sound()
    modifies m, m.metadata, m.keys, m.vals
    ensures m.Sound()
    ensures Distinct(visited) && Elements(visited) == old(m.Contents()).Keys
    ensures forall i :: 0 <= i < |visited| ==> (visited[i] in m.Contents() <==> !erase(i, visited[i]))
    ensures forall k :: k in m.Contents() ==> k in old(m.Contents()) && m.Contents()[k] == old(m.Contents())[k]
  {
    ghost var all := m.Contents();
    visited := [];
    var b: nat := First(m);
    while b != m.Cap()
      invariant m.Sound() && b <= m.Cap() && (b < m.Cap() ==> m.metadata[b] != EMPTY)
      invariant InProgress(all, m.Contents(), m.where, visited, erase, b)
      decreases |all| - |visited|
    {
      var key, was := m.keys[b], b;
      ghost var now, where := m.Contents(), m.where;
      OccupiedBucket(m, b);
      b := MoveOn(m, was, erase(|visited|, key));
      Step(all, now, where, m.Contents(), m.where, visited, erase, was, b, key);
      visited := visited + [key];
    }
    Finished(all, m.Contents(), m.where, visited, erase, b);
  }
}
