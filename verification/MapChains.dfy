/** The chains threaded through the metadata of cc_map: every home bucket starts a chain whose displacements
    strictly increase, and every linked bucket lies on the chain of its own home. */
module MapChains {
  /** A bucket's 16-bit metadatum: 4 bits of the hash code, the in-home-bucket flag, and the 11-bit
      displacement of the next key in the chain. */
  datatype Metadatum = Metadatum(frag: nat, home: bool, next: nat)

  const EMPTY := Metadatum(0, false, 0)
  /** CC_MAP_DISPLACEMENT_MASK: the end-of-chain mark and the displacement limit. */
  const END: nat := 0x7FF

  /** The bucket at a displacement from a home bucket. */
  type Probe = (nat, nat) -> nat

  /** Bucket b is occupied and linked; `lost` is an evicted bucket that no chain reaches (or -1). */
  ghost predicate Linked(meta: seq<Metadatum>, lost: int, b: int) {
    0 <= b < |meta| && meta[b] != EMPTY && b != lost
  }

  /** What one linked bucket says about itself: home[b] is the home bucket of its key, and dist[b] its
      displacement from there. */
  ghost predicate Placed(at: Probe, meta: seq<Metadatum>, home: seq<nat>, dist: seq<nat>, lost: int, b: int)
    requires 0 <= b < |home| == |meta| == |dist|
  {
    && dist[b] < END
    && b == at(home[b], dist[b])
    && (meta[b].home <==> dist[b] == 0)
    && meta[b].next <= END
    && Linked(meta, lost, home[b]) && meta[home[b]].home
  }

  /** A link leads to the bucket of the same chain at the displacement it names. */
  ghost predicate LinkLeadsOn(at: Probe, meta: seq<Metadatum>, home: seq<nat>, dist: seq<nat>, lost: int, b: int)
    requires 0 <= b < |home| == |meta| == |dist|
  {
    meta[b].next == END ||
    var n := at(home[b], meta[b].next);
    && Linked(meta, lost, n)
    && home[n] == home[b]
    && dist[n] == meta[b].next
    && dist[b] < dist[n]
  }

  /** A link never jumps over a later bucket of the same chain. */
  ghost predicate LinkSkipsNone(meta: seq<Metadatum>, home: seq<nat>, dist: seq<nat>, b: int, c: int)
    requires 0 <= b < |home| == |meta| == |dist|
    requires 0 <= c < |home|
  {
    home[b] == home[c] && dist[b] < dist[c] ==> meta[b].next <= dist[c]
  }

  ghost predicate Chained(at: Probe, meta: seq<Metadatum>, home: seq<nat>, dist: seq<nat>, lost: int) {
    && |home| == |meta| == |dist|
    && (forall h: nat :: h < |meta| ==> at(h, 0) == h)
    && (forall b :: Linked(meta, lost, b) ==> Placed(at, meta, home, dist, lost, b))
    && (forall b :: Linked(meta, lost, b) ==> LinkLeadsOn(at, meta, home, dist, lost, b))
    && (forall b, c :: Linked(meta, lost, b) && Linked(meta, lost, c) ==> LinkSkipsNone(meta, home, dist, b, c))
    && (lost != -1 ==> 0 <= lost < |meta| && meta[lost] != EMPTY && !meta[lost].home)
  }

  /** Two linked buckets of one chain at the same displacement are the same bucket. */
  lemma SamePlace(at: Probe, meta: seq<Metadatum>, home: seq<nat>, dist: seq<nat>, lost: int, b: int, c: int)
    requires Chained(at, meta, home, dist, lost)
    requires Linked(meta, lost, b) && Linked(meta, lost, c)
    requires home[b] == home[c] && dist[b] == dist[c]
    ensures b == c
  {
  }

  /** A home-flagged bucket holds a key that belongs there. */
  lemma HomeFlag(at: Probe, meta: seq<Metadatum>, home: seq<nat>, dist: seq<nat>, lost: int, b: int)
    requires Chained(at, meta, home, dist, lost)
    requires 0 <= b < |meta| && meta[b].home
    ensures Linked(meta, lost, b)
    ensures home[b] == b && dist[b] == 0
  {
    assert Linked(meta, lost, b);
    assert Placed(at, meta, home, dist, lost, b);
  }

  /** Following a link from b towards a later bucket c of the same chain gets nearer without passing it. */
  lemma Follow(at: Probe, meta: seq<Metadatum>, home: seq<nat>, dist: seq<nat>, lost: int, b: int, c: int)
    requires Chained(at, meta, home, dist, lost)
    requires Linked(meta, lost, b) && Linked(meta, lost, c)
    requires home[b] == home[c]
    requires dist[b] < dist[c]
    ensures meta[b].next != END
    ensures var n := at(home[b], meta[b].next);
            && Linked(meta, lost, n)
            && home[n] == home[b]
            && dist[b] < dist[n] == meta[b].next <= dist[c]
            && (dist[n] == dist[c] ==> n == c)
  {
    assert LinkSkipsNone(meta, home, dist, b, c);
    assert Placed(at, meta, home, dist, lost, c);
    assert LinkLeadsOn(at, meta, home, dist, lost, b);
    var n := at(home[b], meta[b].next);
    if dist[n] == dist[c] {
      SamePlace(at, meta, home, dist, lost, n, c);
    }
  }

  /** Putting a key into its own empty (or vacated) home bucket starts a one-key chain. */
  lemma StartChain(at: Probe, meta: seq<Metadatum>, home: seq<nat>, dist: seq<nat>, lost: int, h: nat, frag: nat)
    requires Chained(at, meta, home, dist, lost)
    requires h < |meta| && (meta[h] == EMPTY || h == lost)
    requires lost == -1 || lost == h
    ensures Chained(at, meta[h := Metadatum(frag, true, END)], home[h := h], dist[h := 0], -1)
  {
    var m, k, d := meta[h := Metadatum(frag, true, END)], home[h := h], dist[h := 0];
    assert Linked(m, -1, h);
    forall b | Linked(m, -1, b) ensures Placed(at, m, k, d, -1, b) && LinkLeadsOn(at, m, k, d, -1, b) {
      if b != h {
        assert Linked(meta, lost, b);
        assert Placed(at, meta, home, dist, lost, b);
        assert LinkLeadsOn(at, meta, home, dist, lost, b);
      }
    }
    forall b, c | Linked(m, -1, b) && Linked(m, -1, c) ensures LinkSkipsNone(m, k, d, b, c) {
      if b != h && c != h {
        assert Linked(meta, lost, b) && Linked(meta, lost, c);
        assert LinkSkipsNone(meta, home, dist, b, c);
      } else if b != c {
        var o := if b == h then c else b;
        assert Linked(meta, lost, o);
        assert Placed(at, meta, home, dist, lost, o);
      }
    }
  }

  /** The metadata after bucket e, holding a key with this hash fragment, is linked in behind prev at displacement d. */
  function AfterLink(meta: seq<Metadatum>, prev: int, e: int, d: nat, frag: nat): (r: seq<Metadatum>)
    requires 0 <= prev < |meta| && 0 <= e < |meta|
    ensures |r| == |meta|
  {
    meta[e := Metadatum(frag, false, meta[prev].next)][prev := meta[prev].(next := d)]
  }

  /** prev is the last bucket of its chain before displacement d, and e is the empty bucket there. */
  ghost predicate CanLink(at: Probe, meta: seq<Metadatum>, home: seq<nat>, dist: seq<nat>, lost: int, prev: int,
      e: int, d: nat)
    requires |home| == |meta| == |dist|
  {
    && Linked(meta, lost, prev)
    && 0 <= e < |meta| && meta[e] == EMPTY
    && e == at(home[prev], d)
    && dist[prev] < d < END && meta[prev].next > d
  }

  lemma LinkInOne(at: Probe, meta: seq<Metadatum>, home: seq<nat>, dist: seq<nat>, lost: int, prev: int, e: int,
      d: nat, frag: nat, b: int)
    requires |home| == |meta| == |dist|
    requires CanLink(at, meta, home, dist, lost, prev, e, d)
    requires Linked(meta, lost, b)
    requires Placed(at, meta, home, dist, lost, b) && LinkLeadsOn(at, meta, home, dist, lost, b)
    ensures Placed(at, AfterLink(meta, prev, e, d, frag), home[e := home[prev]], dist[e := d], lost, b)
    ensures b != prev ==> LinkLeadsOn(at, AfterLink(meta, prev, e, d, frag), home[e := home[prev]], dist[e := d],
        lost, b)
  {
  }

  lemma LinkInNew(at: Probe, meta: seq<Metadatum>, home: seq<nat>, dist: seq<nat>, lost: int, prev: int, e: int,
      d: nat, frag: nat)
    requires |home| == |meta| == |dist|
    requires CanLink(at, meta, home, dist, lost, prev, e, d)
    requires lost != e
    requires Placed(at, meta, home, dist, lost, prev) && LinkLeadsOn(at, meta, home, dist, lost, prev)
    ensures Placed(at, AfterLink(meta, prev, e, d, frag), home[e := home[prev]], dist[e := d], lost, e)
    ensures LinkLeadsOn(at, AfterLink(meta, prev, e, d, frag), home[e := home[prev]], dist[e := d], lost, e)
    ensures LinkLeadsOn(at, AfterLink(meta, prev, e, d, frag), home[e := home[prev]], dist[e := d], lost, prev)
  {
  }

  lemma LinkInSkips(at: Probe, meta: seq<Metadatum>, home: seq<nat>, dist: seq<nat>, lost: int, prev: int, e: int,
      d: nat, frag: nat, b: int, c: int)
    requires Chained(at, meta, home, dist, lost)
    requires CanLink(at, meta, home, dist, lost, prev, e, d)
    requires Linked(AfterLink(meta, prev, e, d, frag), lost, b)
    requires Linked(AfterLink(meta, prev, e, d, frag), lost, c)
    ensures LinkSkipsNone(AfterLink(meta, prev, e, d, frag), home[e := home[prev]], dist[e := d], b, c)
  {
    if b == e && c != e {
      assert Linked(meta, lost, c);
      assert LinkSkipsNone(meta, home, dist, prev, c);
    } else if c == e && b != e {
      assert Linked(meta, lost, b);
      assert LinkSkipsNone(meta, home, dist, b, prev);
      assert LinkSkipsNone(meta, home, dist, prev, b);
      if home[b] == home[prev] && dist[b] == dist[prev] {
        SamePlace(at, meta, home, dist, lost, b, prev);
      }
    } else if b != e {
      assert Linked(meta, lost, b) && Linked(meta, lost, c);
      assert LinkSkipsNone(meta, home, dist, b, c);
    }
  }

  lemma LinkInEach(at: Probe, meta: seq<Metadatum>, home: seq<nat>, dist: seq<nat>, lost: int, prev: int, e: int,
      d: nat, frag: nat, b: int)
    requires Chained(at, meta, home, dist, lost)
    requires CanLink(at, meta, home, dist, lost, prev, e, d)
    requires Linked(AfterLink(meta, prev, e, d, frag), lost, b)
    ensures Placed(at, AfterLink(meta, prev, e, d, frag), home[e := home[prev]], dist[e := d], lost, b)
    ensures LinkLeadsOn(at, AfterLink(meta, prev, e, d, frag), home[e := home[prev]], dist[e := d], lost, b)
  {
    assert Placed(at, meta, home, dist, lost, prev) && LinkLeadsOn(at, meta, home, dist, lost, prev);
    if b == e || b == prev {
      LinkInNew(at, meta, home, dist, lost, prev, e, d, frag);
    }
    if b != e {
      assert Linked(meta, lost, b);
      LinkInOne(at, meta, home, dist, lost, prev, e, d, frag, b);
    }
  }

  /** Linking an empty bucket in behind the last bucket of the chain before its displacement keeps the chains. */
  lemma LinkIn(at: Probe, meta: seq<Metadatum>, home: seq<nat>, dist: seq<nat>, lost: int, prev: int, e: int, d: nat,
      frag: nat)
    requires Chained(at, meta, home, dist, lost)
    requires CanLink(at, meta, home, dist, lost, prev, e, d)
    ensures Chained(at, AfterLink(meta, prev, e, d, frag), home[e := home[prev]], dist[e := d], lost)
  {
    var m, h, ds := AfterLink(meta, prev, e, d, frag), home[e := home[prev]], dist[e := d];
    forall b | Linked(m, lost, b) ensures Placed(at, m, h, ds, lost, b) && LinkLeadsOn(at, m, h, ds, lost, b) {
      LinkInEach(at, meta, home, dist, lost, prev, e, d, frag, b);
    }
    forall b, c | Linked(m, lost, b) && Linked(m, lost, c) ensures LinkSkipsNone(m, h, ds, b, c) {
      LinkInSkips(at, meta, home, dist, lost, prev, e, d, frag, b, c);
    }
  }

  /** The metadata after prev's link is bent past the bucket x that followed it. */
  function AfterUnlink(meta: seq<Metadatum>, prev: int, x: int): (r: seq<Metadatum>)
    requires 0 <= prev < |meta| && 0 <= x < |meta|
    ensures |r| == |meta|
  {
    meta[prev := meta[prev].(next := meta[x].next)]
  }

  /** prev is the bucket before x on their chain. */
  ghost predicate Precedes(meta: seq<Metadatum>, home: seq<nat>, dist: seq<nat>, prev: int, x: int)
    requires |home| == |meta| == |dist|
  {
    && Linked(meta, -1, prev) && Linked(meta, -1, x) && prev != x
    && home[prev] == home[x]
    && meta[prev].next == dist[x]
  }

  lemma OnePredecessor(at: Probe, meta: seq<Metadatum>, home: seq<nat>, dist: seq<nat>, prev: int, x: int, b: int)
    requires Chained(at, meta, home, dist, -1)
    requires Precedes(meta, home, dist, prev, x) && Precedes(meta, home, dist, b, x)
    ensures b == prev
  {
    assert LinkLeadsOn(at, meta, home, dist, -1, b) && LinkLeadsOn(at, meta, home, dist, -1, prev);
    assert Placed(at, meta, home, dist, -1, x);
    assert LinkSkipsNone(meta, home, dist, b, prev) && LinkSkipsNone(meta, home, dist, prev, b);
    if dist[b] == dist[prev] {
      SamePlace(at, meta, home, dist, -1, b, prev);
    }
  }

  lemma UnlinkOne(at: Probe, meta: seq<Metadatum>, home: seq<nat>, dist: seq<nat>, prev: int, x: int, b: int)
    requires Chained(at, meta, home, dist, -1)
    requires Precedes(meta, home, dist, prev, x)
    requires Linked(meta, -1, b) && b != x && b != prev
    ensures Placed(at, AfterUnlink(meta, prev, x), home, dist, x, b)
    ensures LinkLeadsOn(at, AfterUnlink(meta, prev, x), home, dist, x, b)
  {
    assert Placed(at, meta, home, dist, -1, b) && LinkLeadsOn(at, meta, home, dist, -1, b);
    assert home[b] != x by {
      NotAHome(at, meta, home, dist, prev, x);
      assert meta[home[b]].home;
    }
    if meta[b].next != END && at(home[b], meta[b].next) == x {
      OnePredecessor(at, meta, home, dist, prev, x, b);
    }
  }

  lemma NotAHome(at: Probe, meta: seq<Metadatum>, home: seq<nat>, dist: seq<nat>, prev: int, x: int)
    requires Chained(at, meta, home, dist, -1)
    requires Precedes(meta, home, dist, prev, x)
    ensures !meta[x].home
    ensures dist[prev] < dist[x] < END
  {
    assert Placed(at, meta, home, dist, -1, x) && LinkLeadsOn(at, meta, home, dist, -1, prev);
  }

  lemma UnlinkPrev(at: Probe, meta: seq<Metadatum>, home: seq<nat>, dist: seq<nat>, prev: int, x: int)
    requires Chained(at, meta, home, dist, -1)
    requires Precedes(meta, home, dist, prev, x)
    ensures Placed(at, AfterUnlink(meta, prev, x), home, dist, x, prev)
    ensures LinkLeadsOn(at, AfterUnlink(meta, prev, x), home, dist, x, prev)
  {
    NotAHome(at, meta, home, dist, prev, x);
    assert Placed(at, meta, home, dist, -1, prev) && Placed(at, meta, home, dist, -1, x);
    assert LinkLeadsOn(at, meta, home, dist, -1, x);
  }

  lemma UnlinkSkips(at: Probe, meta: seq<Metadatum>, home: seq<nat>, dist: seq<nat>, prev: int, x: int, b: int, c: int)
    requires Chained(at, meta, home, dist, -1)
    requires Precedes(meta, home, dist, prev, x)
    requires Linked(meta, -1, b) && Linked(meta, -1, c) && b != x && c != x
    ensures LinkSkipsNone(AfterUnlink(meta, prev, x), home, dist, b, c)
  {
    assert LinkSkipsNone(meta, home, dist, b, c);
    if b == prev && home[b] == home[c] && dist[b] < dist[c] {
      if dist[c] == dist[x] {
        SamePlace(at, meta, home, dist, -1, c, x);
      }
      assert LinkSkipsNone(meta, home, dist, x, c);
    }
  }

  /** Bending the link before x past it takes x, and only x, out of its chain. */
  lemma Unlink(at: Probe, meta: seq<Metadatum>, home: seq<nat>, dist: seq<nat>, prev: int, x: int)
    requires Chained(at, meta, home, dist, -1)
    requires Precedes(meta, home, dist, prev, x)
    ensures Chained(at, AfterUnlink(meta, prev, x), home, dist, x)
  {
    var m := AfterUnlink(meta, prev, x);
    NotAHome(at, meta, home, dist, prev, x);
    UnlinkPrev(at, meta, home, dist, prev, x);
    forall b | Linked(m, x, b) ensures Placed(at, m, home, dist, x, b) && LinkLeadsOn(at, m, home, dist, x, b) {
      assert Linked(meta, -1, b);
      if b != prev {
        UnlinkOne(at, meta, home, dist, prev, x, b);
      }
    }
    forall b, c | Linked(m, x, b) && Linked(m, x, c) ensures LinkSkipsNone(m, home, dist, b, c) {
      UnlinkSkips(at, meta, home, dist, prev, x, b, c);
    }
  }

  /** An unlinked bucket can be emptied. */
  lemma DropLost(at: Probe, meta: seq<Metadatum>, home: seq<nat>, dist: seq<nat>, x: int)
    requires Chained(at, meta, home, dist, x) && x != -1
    ensures Chained(at, meta[x := EMPTY], home, dist, -1)
  {
    var m := meta[x := EMPTY];
    forall b | Linked(m, -1, b) ensures Placed(at, m, home, dist, -1, b) && LinkLeadsOn(at, m, home, dist, -1, b) {
      assert Linked(meta, x, b);
      assert Placed(at, meta, home, dist, x, b) && LinkLeadsOn(at, meta, home, dist, x, b);
    }
    forall b, c | Linked(m, -1, b) && Linked(m, -1, c) ensures LinkSkipsNone(m, home, dist, b, c) {
      assert Linked(meta, x, b) && Linked(meta, x, c);
      assert LinkSkipsNone(meta, home, dist, b, c);
    }
  }

  /** A bucket that no chain reaches may as well hold a key as be empty. */
  lemma KeepLost(at: Probe, meta: seq<Metadatum>, home: seq<nat>, dist: seq<nat>, x: int)
    requires 0 <= x < |meta| && meta[x] != EMPTY && !meta[x].home && Chained(at, meta[x := EMPTY], home, dist, -1)
    ensures Chained(at, meta, home, dist, x)
  {
    var m := meta[x := EMPTY];
    forall b | Linked(meta, x, b) ensures Placed(at, meta, home, dist, x, b)
        && LinkLeadsOn(at, meta, home, dist, x, b) {
      assert Linked(m, -1, b);
      assert Placed(at, m, home, dist, -1, b) && LinkLeadsOn(at, m, home, dist, -1, b);
    }
    forall b, c | Linked(meta, x, b) && Linked(meta, x, c) ensures LinkSkipsNone(meta, home, dist, b, c) {
      assert Linked(m, -1, b) && Linked(m, -1, c);
      assert LinkSkipsNone(m, home, dist, b, c);
    }
  }

  /** The metadata of the linked buckets only. */
  function Live(meta: seq<Metadatum>, lost: int): (r: seq<Metadatum>)
    ensures |r| == |meta|
  {
    if 0 <= lost < |meta| then meta[lost := EMPTY] else meta
  }

  lemma LiveLinked(meta: seq<Metadatum>, lost: int, b: int)
    requires lost == -1 || 0 <= lost < |meta|
    ensures Linked(Live(meta, lost), -1, b) <==> Linked(meta, lost, b)
    ensures Linked(meta, lost, b) ==> Live(meta, lost)[b] == meta[b]
  {
  }

  lemma LiveChained(at: Probe, meta: seq<Metadatum>, home: seq<nat>, dist: seq<nat>, lost: int)
    requires Chained(at, meta, home, dist, lost)
    ensures Chained(at, Live(meta, lost), home, dist, -1)
  {
    if lost != -1 {
      DropLost(at, meta, home, dist, lost);
    }
  }

  lemma ChainedLive(at: Probe, meta: seq<Metadatum>, home: seq<nat>, dist: seq<nat>, lost: int)
    requires Chained(at, Live(meta, lost), home, dist, -1)
    requires lost == -1 || (0 <= lost < |meta| && meta[lost] != EMPTY && !meta[lost].home)
    ensures Chained(at, meta, home, dist, lost)
  {
    if lost != -1 {
      KeepLost(at, meta, home, dist, lost);
    }
  }

  /** Emptying a bucket that is the whole of its chain keeps the other chains. */
  lemma EndChain(at: Probe, meta: seq<Metadatum>, home: seq<nat>, dist: seq<nat>, x: int)
    requires Chained(at, meta, home, dist, -1)
    requires Linked(meta, -1, x) && meta[x].home && meta[x].next == END
    ensures Chained(at, meta[x := EMPTY], home, dist, -1)
  {
    var m := meta[x := EMPTY];
    HomeFlag(at, meta, home, dist, -1, x);
    forall b | Linked(m, -1, b) ensures Placed(at, m, home, dist, -1, b) && LinkLeadsOn(at, m, home, dist, -1, b) {
      assert Linked(meta, -1, b);
      AloneInChain(at, meta, home, dist, x, b);
      assert Placed(at, meta, home, dist, -1, b) && LinkLeadsOn(at, meta, home, dist, -1, b);
    }
    forall b, c | Linked(m, -1, b) && Linked(m, -1, c) ensures LinkSkipsNone(m, home, dist, b, c) {
      assert Linked(meta, -1, b) && Linked(meta, -1, c);
      assert LinkSkipsNone(meta, home, dist, b, c);
    }
  }

  lemma AloneInChain(at: Probe, meta: seq<Metadatum>, home: seq<nat>, dist: seq<nat>, x: int, b: int)
    requires Chained(at, meta, home, dist, -1)
    requires Linked(meta, -1, x) && meta[x].home && meta[x].next == END
    requires Linked(meta, -1, b) && b != x
    ensures home[b] != x
    ensures home[b] != home[x]
  {
    HomeFlag(at, meta, home, dist, -1, x);
    if home[b] == x {
      if dist[b] == 0 {
        SamePlace(at, meta, home, dist, -1, b, x);
      } else {
        Follow(at, meta, home, dist, -1, x, b);
      }
    }
  }

  lemma NextIsPositive(at: Probe, meta: seq<Metadatum>, home: seq<nat>, dist: seq<nat>, lost: int, b: int)
    requires Chained(at, meta, home, dist, lost)
    requires Linked(meta, lost, b)
    ensures 0 < meta[b].next <= END
  {
    assert Placed(at, meta, home, dist, lost, b) && LinkLeadsOn(at, meta, home, dist, lost, b);
  }

  /** The hash fragment plays no part in the chains. */
  lemma ChangeFrag(at: Probe, meta: seq<Metadatum>, home: seq<nat>, dist: seq<nat>, lost: int, x: int, frag: nat)
    requires Chained(at, meta, home, dist, lost)
    requires Linked(meta, lost, x)
    ensures Chained(at, meta[x := meta[x].(frag := frag)], home, dist, lost)
  {
    var m := meta[x := meta[x].(frag := frag)];
    NextIsPositive(at, meta, home, dist, lost, x);
    forall b | Linked(m, lost, b) ensures Placed(at, m, home, dist, lost, b)
        && LinkLeadsOn(at, m, home, dist, lost, b) {
      assert Linked(meta, lost, b);
      assert Placed(at, meta, home, dist, lost, b) && LinkLeadsOn(at, meta, home, dist, lost, b);
    }
    forall b, c | Linked(m, lost, b) && Linked(m, lost, c) ensures LinkSkipsNone(m, home, dist, b, c) {
      assert Linked(meta, lost, b) && Linked(meta, lost, c);
      assert LinkSkipsNone(meta, home, dist, b, c);
    }
  }

  function Refragged(meta: seq<Metadatum>, bucket: nat, from: nat): (r: seq<Metadatum>)
    requires bucket < |meta| && from < |meta|
    ensures |r| == |meta|
  {
    meta[bucket := meta[bucket].(frag := meta[from].frag)]
  }

  /** The metadata after bucket x, the next after prev, has been cut off its chain. */
  function CutAt(meta: seq<Metadatum>, prev: nat, x: nat): (r: seq<Metadatum>)
    requires prev < |meta| && x < |meta|
    ensures |r| == |meta|
  {
    AfterUnlink(meta, prev, x)[x := EMPTY]
  }

  /** The metadata after the last bucket of a chain, the next after prev, has been copied over another one. */
  function WithoutLast(meta: seq<Metadatum>, bucket: nat, prev: nat, last: nat): (r: seq<Metadatum>)
    requires bucket < |meta| && prev < |meta| && last < |meta|
    ensures |r| == |meta|
  {
    CutAt(Refragged(meta, bucket, last), prev, last)
  }

  /** Taking the last bucket of a chain out, with its hash fragment copied into another one, keeps the chains. */
  lemma ReplaceInChain(at: Probe, meta: seq<Metadatum>, home: seq<nat>, dist: seq<nat>, bucket: nat, prev: nat,
      last: nat)
    requires Chained(at, meta, home, dist, -1) && Linked(meta, -1, bucket) && bucket != last
    requires Precedes(meta, home, dist, prev, last)
    ensures Chained(at, WithoutLast(meta, bucket, prev, last), home, dist, -1)
    ensures 0 < meta[bucket].next
  {
    var m := Refragged(meta, bucket, last);
    NextIsPositive(at, meta, home, dist, -1, bucket);
    ChangeFrag(at, meta, home, dist, -1, bucket, meta[last].frag);
    NextIsPositive(at, meta, home, dist, -1, prev);
    NextIsPositive(at, meta, home, dist, -1, last);
    assert Precedes(m, home, dist, prev, last);
    Unlink(at, m, home, dist, prev, last);
    DropLost(at, AfterUnlink(m, prev, last), home, dist, last);
  }

  /** The three ways to take a linked bucket out of its chain, beside a bucket that no chain reaches. */
  lemma EndLive(at: Probe, meta: seq<Metadatum>, home: seq<nat>, dist: seq<nat>, lost: int, x: nat)
    requires Chained(at, meta, home, dist, lost) && x < |meta| && meta[x].home && meta[x].next == END
    ensures Chained(at, meta[x := EMPTY], home, dist, lost)
  {
    var live := Live(meta, lost);
    LiveChained(at, meta, home, dist, lost);
    EndChain(at, live, home, dist, x);
    assert Live(meta[x := EMPTY], lost) == live[x := EMPTY];
    ChainedLive(at, meta[x := EMPTY], home, dist, lost);
  }

  lemma CutLive(at: Probe, meta: seq<Metadatum>, home: seq<nat>, dist: seq<nat>, lost: int, prev: nat, x: nat)
    requires Chained(at, meta, home, dist, lost) && Linked(meta, lost, x)
    requires Precedes(Live(meta, lost), home, dist, prev, x)
    ensures Chained(at, CutAt(meta, prev, x), home, dist, lost)
  {
    var live := Live(meta, lost);
    LiveChained(at, meta, home, dist, lost);
    Unlink(at, live, home, dist, prev, x);
    DropLost(at, AfterUnlink(live, prev, x), home, dist, x);
    LiveLinked(meta, lost, prev);
    assert Live(CutAt(meta, prev, x), lost) == CutAt(live, prev, x);
    ChainedLive(at, CutAt(meta, prev, x), home, dist, lost);
  }

  lemma ReplaceLive(at: Probe, meta: seq<Metadatum>, home: seq<nat>, dist: seq<nat>, lost: int, bucket: nat,
      prev: nat, last: nat)
    requires Chained(at, meta, home, dist, lost) && Linked(meta, lost, bucket) && bucket != last
    requires Linked(meta, lost, prev) && Linked(meta, lost, last) && Precedes(Live(meta, lost), home, dist, prev, last)
    ensures Chained(at, WithoutLast(meta, bucket, prev, last), home, dist, lost)
    ensures 0 < meta[bucket].next
  {
    var live := Live(meta, lost);
    LiveChained(at, meta, home, dist, lost);
    hide Chained, Precedes;
    LiveLinked(meta, lost, bucket);
    ReplaceInChain(at, live, home, dist, bucket, prev, last);
    assert Live(WithoutLast(meta, bucket, prev, last), lost) == WithoutLast(live, bucket, prev, last) by {
      LiveReplaced(meta, lost, bucket, prev, last);
    }
    LostUntouched(at, meta, home, dist, lost, bucket, prev, last);
    ChainedLive(at, WithoutLast(meta, bucket, prev, last), home, dist, lost);
  }

  lemma LiveReplaced(meta: seq<Metadatum>, lost: int, bucket: nat, prev: nat, last: nat)
    requires Linked(meta, lost, bucket) && Linked(meta, lost, prev) && Linked(meta, lost, last) && lost < |meta|
    ensures Live(WithoutLast(meta, bucket, prev, last), lost) == WithoutLast(Live(meta, lost), bucket, prev, last)
  {
  }

  lemma LostUntouched(at: Probe, meta: seq<Metadatum>, home: seq<nat>, dist: seq<nat>, lost: int, bucket: nat,
      prev: nat, last: nat)
    requires Chained(at, meta, home, dist, lost) && Linked(meta, lost, bucket) && Linked(meta, lost, prev)
        && Linked(meta, lost, last)
    ensures lost == -1 || (0 <= lost < |meta| && WithoutLast(meta, bucket, prev, last)[lost] == meta[lost] != EMPTY
        && !meta[lost].home)
  {
  }
}
