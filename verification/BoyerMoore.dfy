/** Boyer-Moore search of kstring.c: the two shift tables and the search that uses them. */
module BoyerMoore {
  import opened Wrappers

  type Byte = x: int | 0 <= x < 256

  /** The last k bytes of the pattern also end at position i. */
  ghost predicate EndsAt(pat: seq<Byte>, i: int, k: int) {
    0 <= k <= i + 1 <= |pat| && forall u :: i - k < u <= i ==> pat[u] == pat[u + |pat| - 1 - i]
  }

  /** k is the length of the longest common suffix of the pattern and its first i + 1 bytes. */
  ghost predicate IsSuffixLength(pat: seq<Byte>, i: int, k: int) {
    EndsAt(pat, i, k) && (k <= i ==> pat[i - k] != pat[|pat| - 1 - k])
  }

  lemma LongestSuffix(pat: seq<Byte>, i: int, k: int, other: int)
    requires IsSuffixLength(pat, i, k) && EndsAt(pat, i, other)
    ensures other <= k
  {
  }

  lemma OneSuffixLength(pat: seq<Byte>, i: int, k: int, other: int)
    requires IsSuffixLength(pat, i, k) && IsSuffixLength(pat, i, other)
    ensures other == k
  {
    LongestSuffix(pat, i, k, other);
    LongestSuffix(pat, i, other, k);
  }

  /** After a mismatch at i, moving the pattern by s keeps the matched bytes and changes the mismatched one. */
  ghost predicate Compatible(pat: seq<Byte>, i: int, s: int)
    requires 0 <= i < |pat| && 0 < s
  {
    && (forall k :: i < k < |pat| && s <= k ==> pat[k - s] == pat[k])
    && (s <= i ==> pat[i - s] != pat[i])
  }

  /** The good-suffix shift by its definition: the least compatible one. */
  ghost predicate IsGoodSuffixShift(pat: seq<Byte>, i: int, s: int)
    requires 0 <= i < |pat|
  {
    0 < s <= |pat| && Compatible(pat, i, s) && forall r :: 0 < r < s ==> !Compatible(pat, i, r)
  }

  /** s leads from the last position to the last c before position n, or past the first byte if there is none. */
  ghost predicate LeadsToLast(pat: seq<Byte>, n: int, c: Byte, s: int) {
    && 0 < s <= |pat|
    && (s < |pat| ==> |pat| - 1 - s < n && pat[|pat| - 1 - s] == c)
    && forall q :: 0 <= q < n < |pat| && |pat| - 1 - s < q ==> pat[q] != c
  }

  /** The bad-character shift by its definition. */
  ghost predicate IsBadCharacterShift(pat: seq<Byte>, c: Byte, s: int) {
    LeadsToLast(pat, |pat| - 1, c, s)
  }

  /** Compatible shifts read off the suffix lengths. */
  lemma CompatibleShifts(pat: seq<Byte>, p: int, s: int, k: int)
    requires 0 <= p < |pat| && 0 < s < |pat| && IsSuffixLength(pat, |pat| - 1 - s, k)
    ensures Compatible(pat, p, s) <==> if s <= p then k == |pat| - 1 - p else k == |pat| - s
  {
    var m := |pat|;
    var i := m - 1 - s;
    if Compatible(pat, p, s) {
      var l := if s <= p then m - 1 - p else m - s;
      forall u | i - l < u <= i ensures pat[u] == pat[u + m - 1 - i] {
        assert pat[u + s - s] == pat[u + s];
      }
      assert EndsAt(pat, i, l);
      OneSuffixLength(pat, i, k, l);
    }
    if s <= p && k == m - 1 - p {
      forall q | p < q < m && s <= q ensures pat[q - s] == pat[q] {
        assert i - k < q - s <= i;
      }
    }
    if p < s && k == m - s {
      forall q | p < q < m && s <= q ensures pat[q - s] == pat[q] {
        assert i - k < q - s <= i;
      }
    }
  }

  /** The suffix lengths in `suff` from position i on are right. */
  ghost predicate SuffixesFrom(pat: seq<Byte>, suff: seq<int>, i: int) {
    |suff| == |pat| && forall k :: i <= k < |pat| && 0 <= k ==> IsSuffixLength(pat, k, suff[k])
  }

  /** The bytes of the pattern after g and up to f are also its last ones. */
  ghost predicate Window(pat: seq<Byte>, f: int, g: int) {
    -1 <= g <= f < |pat| && forall u :: g < u <= f ==> pat[u] == pat[u + |pat| - 1 - f]
  }

  lemma WindowCopies(pat: seq<Byte>, suff: seq<int>, i: int, f: int, g: int)
    requires Window(pat, f, g) && 0 <= i && g < i < f < |pat| - 1 && SuffixesFrom(pat, suff, i + 1)
    ensures var k := suff[i + |pat| - 1 - f];
            if k < i - g then IsSuffixLength(pat, i, k) else Window(pat, i, g)
  {
    var m := |pat|;
    var i' := i + m - 1 - f;
    var k := suff[i'];
    assert IsSuffixLength(pat, i', k);
    if k < i - g {
      forall u | i - k < u <= i ensures pat[u] == pat[u + m - 1 - i] {
        assert pat[u] == pat[u + m - 1 - f];
        assert pat[u + i' - i] == pat[u + i' - i + m - 1 - i'];
      }
      assert pat[i - k] == pat[i - k + m - 1 - f];
    } else {
      forall u | g < u <= i ensures pat[u] == pat[u + m - 1 - i] {
        assert pat[u] == pat[u + m - 1 - f];
        assert pat[u + i' - i] == pat[u + i' - i + m - 1 - i'];
      }
    }
  }

  method Extend(pat: seq<Byte>, f: int, from: int) returns (g: int)
    requires 0 <= f < |pat| && Window(pat, f, from)
    ensures Window(pat, f, g) && IsSuffixLength(pat, f, f - g)
  {
    g := from;
    while g >= 0 && pat[g] == pat[g + |pat| - 1 - f]
      invariant Window(pat, f, g)
    {
      g := g - 1;
    }
  }

  /** suffixes(): all suffix lengths in linear time. */
  method Suffixes(pat: seq<Byte>) returns (suff: array<int>)
    requires |pat| > 0
    ensures fresh(suff) && SuffixesFrom(pat, suff[..], 0)
  {
    var m := |pat|;
    suff := new int[m](_ => 0);
    var f, g := 0, m - 1;
    suff[m - 1] := m;
    var i := m - 2;
    while i >= 0
      invariant -1 <= i <= m - 2
      invariant SuffixesFrom(pat, suff[..], i + 1)
      invariant g < i ==> i < f < m - 1 && Window(pat, f, g)
      invariant -1 <= g
    {
      ghost var before := suff[..];
      if i > g && suff[i + m - 1 - f] < i - g {
        WindowCopies(pat, suff[..], i, f, g);
        suff[i] := suff[i + m - 1 - f];
      } else {
        if g < i {
          WindowCopies(pat, suff[..], i, f, g);
        }
        if i < g {
          g := i;
        }
        f := i;
        g := Extend(pat, f, g);
        suff[i] := f - g;
      }
      assert suff[..] == before[i := suff[i]];
      i := i - 1;
    }
  }

  /** preBmBc(): the bad-character table. */
  method BadCharacters(pat: seq<Byte>) returns (bc: array<int>)
    requires |pat| > 0
    ensures fresh(bc) && bc.Length == 256 && forall c: Byte :: IsBadCharacterShift(pat, c, bc[c])
  {
    var m := |pat|;
    bc := new int[256](_ => 0);
    var c := 0;
    while c < 256
      invariant 0 <= c <= 256
      invariant forall k :: 0 <= k < c ==> bc[k] == m
    {
      bc[c] := m;
      c := c + 1;
    }
    var i := 0;
    while i < m - 1
      invariant 0 <= i <= m - 1
      invariant forall k: Byte :: LeadsToLast(pat, i, k, bc[k])
    {
      ghost var before := bc[..];
      bc[pat[i]] := m - i - 1;
      forall k: Byte ensures LeadsToLast(pat, i + 1, k, bc[k]) {
        assert LeadsToLast(pat, i, k, before[k]);
      }
      i := i + 1;
    }
  }

  /** Moving by s leaves only a border of the pattern in place. */
  ghost predicate Border(suff: seq<int>, s: int)
    requires 0 < s < |suff|
  {
    suff[|suff| - 1 - s] == |suff| - s
  }

  /** v is the least border shift beyond p, or the length of the pattern. */
  ghost predicate LeastBorder(suff: seq<int>, p: int, v: int) {
    0 <= p < v <= |suff| && (v < |suff| ==> Border(suff, v)) && forall s :: p < s < v ==> !Border(suff, s)
  }

  /** v comes from the last of the first n suffix lengths that stop at p, or else from a border. */
  ghost predicate LastStop(suff: seq<int>, n: int, p: int, v: int) {
    && 0 <= n < |suff| && 0 <= p < |suff| && 0 < v <= |suff|
    && if |suff| - 1 - v < n && v < |suff| && suff[|suff| - 1 - v] == |suff| - 1 - p then NoStop(suff, |suff| - v, n, p)
       else NoStop(suff, 0, n, p) && LeastBorder(suff, p, v)
  }

  ghost predicate NoStop(suff: seq<int>, from: int, n: int, p: int)
    requires 0 <= n < |suff|
  {
    forall q :: 0 <= from <= q < n ==> suff[q] != |suff| - 1 - p
  }

  /** The table that the code computes is the one that the definition asks for. */
  lemma GoodSuffixTable(pat: seq<Byte>, suff: seq<int>, p: int, v: int)
    requires |pat| > 0 && SuffixesFrom(pat, suff, 0) && LastStop(suff, |pat| - 1, p, v)
    ensures IsGoodSuffixShift(pat, p, v)
  {
    var m := |pat|;
    forall r | 0 < r < v ensures !Compatible(pat, p, r) {
      CompatibleShifts(pat, p, r, suff[m - 1 - r]);
      if v < m {
        assert IsSuffixLength(pat, m - 1 - v, suff[m - 1 - v]);
      }
      assert r <= p || !Border(suff, r);
    }
    if v < m {
      CompatibleShifts(pat, p, v, suff[m - 1 - v]);
    }
  }

  lemma LastStopStep(suff: seq<int>, i: int, p: int, v: int)
    requires LastStop(suff, i, p, v) && i + 1 < |suff|
    ensures LastStop(suff, i + 1, p, if p == |suff| - 1 - suff[i] then |suff| - 1 - i else v)
  {
  }

  /** The second part of preBmGs(): the shifts that keep all matched bytes. */
  method Stops(suff: array<int>, gs: array<int>)
    requires suff != gs && suff.Length == gs.Length > 0
    requires forall i :: 0 <= i < suff.Length ==> 0 <= suff[i] <= i + 1
    requires forall p {:trigger gs[p]} :: 0 <= p < gs.Length ==> LeastBorder(suff[..], p, gs[p])
    modifies gs
    ensures forall p {:trigger gs[p]} :: 0 <= p < gs.Length ==> LastStop(suff[..], gs.Length - 1, p, gs[p])
  {
    var m := suff.Length;
    ghost var lengths := suff[..];
    var i := 0;
    while i <= m - 2
      invariant 0 <= i <= m - 1
      invariant suff[..] == lengths
      invariant forall p {:trigger gs[p]} :: 0 <= p < m ==> LastStop(lengths, i, p, gs[p])
    {
      ghost var before := gs[..];
      gs[m - 1 - suff[i]] := m - 1 - i;
      forall p | 0 <= p < m ensures LastStop(lengths, i + 1, p, gs[p]) {
        LastStopStep(lengths, i, p, before[p]);
      }
      i := i + 1;
    }
  }

  /** preBmGs(): the good-suffix table. */
  method GoodSuffixes(pat: seq<Byte>, suff: array<int>) returns (gs: array<int>)
    requires |pat| > 0 && SuffixesFrom(pat, suff[..], 0)
    ensures fresh(gs) && gs.Length == |pat| && forall p :: 0 <= p < |pat| ==> IsGoodSuffixShift(pat, p, gs[p])
  {
    var m := |pat|;
    gs := new int[m](_ => m);
    ghost var lengths := suff[..];
    assert forall i :: 0 <= i < m ==> IsSuffixLength(pat, i, lengths[i]);
    Borders(suff, gs);
    Stops(suff, gs);
    forall p | 0 <= p < m ensures IsGoodSuffixShift(pat, p, gs[p]) {
      GoodSuffixTable(pat, lengths, p, gs[p]);
    }
  }

  /** The first part of preBmGs(): the shifts that leave a border in place. */
  method Borders(suff: array<int>, gs: array<int>)
    requires suff != gs && suff.Length == gs.Length > 0 && suff[suff.Length - 1] == suff.Length
    requires forall p :: 0 <= p < gs.Length ==> gs[p] == gs.Length
    modifies gs
    ensures forall p :: 0 <= p < gs.Length ==> LeastBorder(suff[..], p, gs[p])
  {
    var m := suff.Length;
    ghost var lengths := suff[..];
    var i, j := m - 1, 0;
    while i >= 0
      invariant -1 <= i < m && 0 <= j < m - 1 - i + 1 && j <= m - 1 && (i == m - 1 ==> j == 0)
      invariant suff[..] == lengths
      invariant forall p :: 0 <= p < j ==> LeastBorder(lengths, p, gs[p])
      invariant forall p :: j <= p < m ==> gs[p] == m
      invariant forall s :: j < s < m - 1 - i ==> !Border(lengths, s)
    {
      if suff[i] == i + 1 {
        while j < m - 1 - i
          invariant 0 <= j <= m - 1 - i || j == 0
          invariant suff[..] == lengths
          invariant forall p :: 0 <= p < j ==> LeastBorder(lengths, p, gs[p])
          invariant forall p :: j <= p < m ==> gs[p] == m
          invariant forall s :: j < s < m - 1 - i ==> !Border(lengths, s)
        {
          if gs[j] == m {
            gs[j] := m - 1 - i;
          }
          j := j + 1;
        }
      }
      i := i - 1;
    }
  }

  datatype Tables = Tables(gs: array<int>, bc: array<int>)

  /** The tables are those of the pattern. */
  ghost predicate TablesOf(prep: Tables, pat: seq<Byte>)
    reads prep.gs, prep.bc
  {
    && prep.gs.Length == |pat| && prep.bc.Length == 256
    && (forall p :: 0 <= p < |pat| ==> IsGoodSuffixShift(pat, p, prep.gs[p]))
    && (forall c: Byte :: IsBadCharacterShift(pat, c, prep.bc[c]))
  }

  /** ksBM_prep */
  method Prepare(pat: seq<Byte>) returns (prep: Tables)
    requires |pat| > 0
    ensures fresh(prep.gs) && fresh(prep.bc) && TablesOf(prep, pat)
  {
    var bc := BadCharacters(pat);
    var suff := Suffixes(pat);
    var gs := GoodSuffixes(pat, suff);
    prep := Tables(gs, bc);
  }

  /** The pattern occurs in the text at j. */
  ghost predicate Occurs(str: seq<Byte>, pat: seq<Byte>, j: int) {
    0 <= j && j + |pat| <= |str| && forall k :: 0 <= k < |pat| ==> pat[k] == str[j + k]
  }

  /** A later occurrence keeps the matched bytes and puts the text's byte in the place of the mismatch. */
  lemma LaterOccurrence(str: seq<Byte>, pat: seq<Byte>, j: int, i: int, s: int)
    requires 0 <= j && 0 <= i < |pat| && j + |pat| <= |str|
    requires pat[i] != str[j + i] && forall k :: i < k < |pat| ==> pat[k] == str[j + k]
    requires 0 < s && Occurs(str, pat, j + s)
    ensures Compatible(pat, i, s) && (s <= i ==> pat[i - s] == str[j + i])
  {
    forall k | i < k < |pat| && s <= k ensures pat[k - s] == pat[k] {
      assert pat[k - s] == str[j + s + (k - s)];
    }
    if s <= i {
      assert pat[i - s] == str[j + s + (i - s)];
    }
  }

  /** No shift smaller than one of the table entries leads to an occurrence. */
  lemma NothingSkipped(str: seq<Byte>, pat: seq<Byte>, j: int, i: int, gs: int, bc: int, s: int)
    requires 0 <= j && 0 <= i < |pat| && j + |pat| <= |str|
    requires pat[i] != str[j + i] && forall k :: i < k < |pat| ==> pat[k] == str[j + k]
    requires IsGoodSuffixShift(pat, i, gs) && IsBadCharacterShift(pat, str[j + i], bc)
    requires 0 < s && (s < gs || s < bc - |pat| + 1 + i)
    ensures !Occurs(str, pat, j + s)
  {
    if Occurs(str, pat, j + s) {
      LaterOccurrence(str, pat, j, i, s);
    }
  }

  /** kmemmem: the leftmost occurrence, if there is one. */
  method Search(str: seq<Byte>, pat: seq<Byte>, cached: Option<Tables>) returns (r: Option<nat>, prep: Tables)
    requires |pat| > 0 && (cached.Some? ==> TablesOf(cached.value, pat))
    ensures r.None? ==> forall j :: !Occurs(str, pat, j)
    ensures r.Some? ==> Occurs(str, pat, r.value) && forall j :: j < r.value ==> !Occurs(str, pat, j)
    ensures TablesOf(prep, pat) && (cached.Some? ==> prep == cached.value)
  {
    if cached.None? {
      prep := Prepare(pat);
    } else {
      prep := cached.value;
    }
    var n, m := |str|, |pat|;
    var j := 0;
    while j <= n - m
      invariant 0 <= j
      invariant forall l :: l < j ==> !Occurs(str, pat, l)
      decreases n - j
    {
      var i := m - 1;
      while i >= 0 && pat[i] == str[i + j]
        invariant -1 <= i < m
        invariant forall k :: i < k < m ==> pat[k] == str[j + k]
      {
        i := i - 1;
      }
      if i < 0 {
        return Some(j), prep;
      }
      var max := prep.bc[str[i + j]] - m + 1 + i;
      if max < prep.gs[i] {
        max := prep.gs[i];
      }
      forall l | l < j + max ensures !Occurs(str, pat, l) {
        if j < l {
          NothingSkipped(str, pat, j, i, prep.gs[i], prep.bc[str[i + j]], l - j);
        }
      }
      j := j + max;
    }
    return None, prep;
  }
}
