/** The quadratic probe sequence of cc_map: triangular displacements reduced to the bucket array. */
module QuadraticProbe {
  import opened Pigeonhole

  /** The triangular numbers; `QuadraticFormula` shows the closed form that cc_quadratic computes. */
  function Quadratic(displacement: nat): nat {
    if displacement == 0 then 0 else Quadratic(displacement - 1) + displacement
  }

  ghost predicate PowerOfTwo(n: nat)
    decreases n
  {
    n == 1 || (n > 1 && n % 2 == 0 && PowerOfTwo(n / 2))
  }

  /** `hash & cap_mask` for a mask one below a power of two: the remainder modulo cap. */
  function Reduce(x: nat, cap: nat): (r: nat)
    requires cap > 0
    ensures r < cap
  {
    if x < cap then x else Reduce(x - cap, cap)
  }

  function Slot(cap: nat, home: nat, displacement: nat): (r: nat)
    requires cap > 0
    ensures r < cap
  {
    Reduce(home + Quadratic(displacement), cap)
  }

  lemma {:induction false} QuadraticFormula(d: nat)
    ensures Quadratic(d) == (d * d + d) / 2
    ensures 2 * Quadratic(d) == d * d + d
  {
    if d > 0 {
      QuadraticFormula(d - 1);
      assert d * d + d == (d - 1) * (d - 1) + (d - 1) + 2 * d;
    }
  }

  lemma SlotOfHome(cap: nat, home: nat)
    requires home < cap
    ensures Slot(cap, home, 0) == home
  {
  }

  /** An odd factor can be cancelled when dividing by a power of two. */
  lemma {:induction false} OddFactorCancels(p: nat, u: nat, v: nat, q: nat) returns (t: nat)
    requires PowerOfTwo(p)
    requires u % 2 == 1
    requires u * v == p * q
    ensures v == p * t
    decreases p
  {
    if p == 1 {
      t := v;
    } else {
      var h := p / 2;
      assert p * q == 2 * (h * q);
      if v % 2 == 1 {
        ProductOfOdds(u, v);
        assert false;
      }
      var w := v / 2;
      assert u * v == 2 * (u * w) by {
        assert u * (2 * w) == 2 * (u * w);
      }
      t := OddFactorCancels(h, u, w, q);
      assert 2 * (h * t) == p * t;
    }
  }

  lemma ProductOfOdds(u: nat, v: nat)
    requires u % 2 == 1 && v % 2 == 1
    ensures (u * v) % 2 == 1
  {
    var a, b := u / 2, v / 2;
    assert u * v == (2 * a + 1) * (2 * b + 1) == 2 * (2 * a * b + a + b) + 1;
  }

  lemma {:induction false} ReduceIsRemainder(x: nat, cap: nat) returns (q: nat)
    requires cap > 0
    ensures x == cap * q + Reduce(x, cap)
    ensures Reduce(x, cap) == x % cap
  {
    if x < cap {
      q := 0;
    } else {
      q := ReduceIsRemainder(x - cap, cap);
      q := q + 1;
    }
    RemainderIsUnique(x, cap, q, Reduce(x, cap));
  }

  lemma RemainderIsUnique(x: nat, cap: nat, q: nat, r: nat)
    requires cap > 0 && x == cap * q + r && r < cap
    ensures r == x % cap
  {
    QuotientIsUnique(cap, q, r, x / cap, x % cap);
  }

  lemma QuotientIsUnique(cap: nat, q: nat, r: nat, q': nat, r': nat)
    requires cap > 0 && r < cap && r' < cap && cap * q + r == cap * q' + r'
    ensures r == r'
  {
    var d: int := q - q';
    assert cap * d == cap * q - cap * q';
    assert d > 0 ==> cap * d >= cap;
    assert d < 0 ==> cap * d + cap <= 0;
  }

  lemma SameRemainder(a: nat, b: nat, cap: nat) returns (q: int)
    requires cap > 0 && Reduce(a, cap) == Reduce(b, cap)
    ensures b - a == cap * q
  {
    var qa := ReduceIsRemainder(a, cap);
    var qb := ReduceIsRemainder(b, cap);
    q := qb as int - qa as int;
    assert cap * q == cap * qb - cap * qa;
  }

  /** No multiple of p lies strictly between 0 and p. */
  lemma NoMultipleBetween(p: nat, v: nat, t: nat)
    requires v == p * t
    requires 0 < v
    ensures v >= p
  {
    if t != 0 {
      assert p * t >= p * 1;
    }
  }

  lemma DifferenceOfTriangles(i: nat, j: nat)
    requires i < j
    ensures 2 * Quadratic(j) - 2 * Quadratic(i) == (j - i) * (j + i + 1) > 0
  {
    QuadraticFormula(i);
    QuadraticFormula(j);
    var u := j - i;
    calc {
      (j - i) * (j + i + 1);
      u * (2 * i + u + 1);
      2 * (u * i) + u * u + u;
      (i + u) * (i + u) + (i + u) - (i * i + i);
    }
    assert u * (j + i + 1) >= 1;
  }

  lemma NonNegativeQuotient(cap: nat, r: int, d: int)
    requires cap > 0 && d > 0 && d == 2 * (cap * r)
    ensures r > 0 && d == (2 * cap) * r
  {
    assert r <= 0 ==> cap * r <= 0;
  }

  /** If two displacements reach the same bucket, 2 * cap divides this product. */
  lemma ProbeCollision(cap: nat, home: nat, i: nat, j: nat) returns (q: nat)
    requires cap > 0 && i < j
    requires Slot(cap, home, i) == Slot(cap, home, j)
    ensures (j - i) * (j + i + 1) == (2 * cap) * q
  {
    var r := SameRemainder(home + Quadratic(i), home + Quadratic(j), cap);
    DifferenceOfTriangles(i, j);
    NonNegativeQuotient(cap, r, (j - i) * (j + i + 1));
    q := r;
  }

  lemma NoCollision(p: nat, u: nat, v: nat, q: nat)
    requires PowerOfTwo(p)
    requires 0 < u < p && 0 < v < p
    requires (u + v) % 2 == 1
    ensures u * v != p * q
  {
    if u * v == p * q {
      if u % 2 == 1 {
        var t := OddFactorCancels(p, u, v, q);
        NoMultipleBetween(p, v, t);
      } else {
        assert v * u == u * v;
        var t := OddFactorCancels(p, v, u, q);
        NoMultipleBetween(p, u, t);
      }
    }
  }

  /** Over one round of a power-of-two table, no bucket is probed twice. */
  lemma {:induction false} ProbeNeverRepeats(cap: nat, home: nat, i: nat, j: nat)
    requires PowerOfTwo(cap)
    requires i < j < cap
    ensures Slot(cap, home, i) != Slot(cap, home, j)
  {
    if Slot(cap, home, i) == Slot(cap, home, j) {
      var q := ProbeCollision(cap, home, i, j);
      assert PowerOfTwo(2 * cap);
      assert (j - i) + (j + i + 1) == 2 * j + 1;
      NoCollision(2 * cap, j - i, j + i + 1, q);
    }
  }

  /** The triangular probe of a power-of-two table reaches every bucket within one round. */
  lemma {:induction false} ProbeReachesEveryBucket(cap: nat, home: nat, bucket: nat) returns (d: nat)
    requires PowerOfTwo(cap)
    requires bucket < cap
    ensures d < cap && Slot(cap, home, d) == bucket
  {
    var s: seq<nat> := seq(cap, (i: nat) => Slot(cap, home, i));
    forall i, j | 0 <= i < j < |s| ensures s[i] != s[j] {
      ProbeNeverRepeats(cap, home, i, j);
    }
    DistinctBelowCovers(s, bucket);
    d :| 0 <= d < |s| && s[d] == bucket;
  }
}
