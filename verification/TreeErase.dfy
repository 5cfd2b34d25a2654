/** The post-erase fix-up of cc_omap, case by case. */
module TreeErase {
  import opened Pigeonhole
  import opened TreeShape
  import opened TreeColours

  /** Paths through the child x of p on side s lack one black node, unless x is the root. */
  ghost predicate EraseState<T>(t: Tree<T>, key: T -> int, h: map<T, nat>, x: T, p: T, s: bool) {
    && Shape(t, key) && NoRedRed(t, x, x)
    && (IsRed(t, t.root) ==> t.root == x)
    && if x == t.root then Balanced(t, h, NoGap)
       else p in t.m && t.m[p].Kid(s) == x && Balanced(t, h, Gap(p, s))
  }

  /** The sibling exists and is on the side the code looks at. */
  lemma Sibling<T>(t: Tree<T>, key: T -> int, h: map<T, nat>, x: T, p: T, s: bool) returns (w: T)
    requires EraseState(t, key, h, x, p, s) && x != t.root
    ensures w == t.m[p].Kid(!s) && w in t.m && w != x && w != p && t.m[w].parent == p && x != p
    ensures s == (x != t.m[p].left)
    ensures w in h && p in h && Black(t, h, w) == h[p] == Black(t, h, x) + 1
    ensures Linked(t, p) && Linked(t, w) && CanRotate(t, key, p, s) && Pivot(t, p, s)
  {
    w := t.m[p].Kid(!s);
    assert BalancedAt(t, h, Gap(p, s), p);
    KidsBalanced(t, h, Gap(p, s), p, s);
    assert w in t.m;
    Family(t, key, p, !s);
    assert Linked(t, p) && Linked(t, w);
    RotatePivot(t, key, p, s);
    if x in t.m {
      Family(t, key, p, s);
    }
  }

  lemma RedSiblingTop<T>(t: Tree<T>, u: Tree<T>, t': Tree<T>, h: map<T, nat>, x: T, p: T, w: T, s: bool)
    requires Pivot(t, p, s) && w == t.m[p].Kid(!s) && x == t.m[p].Kid(s) && Recoloured(t, u, w, p)
        && IsRotation(u, t', p, s)
    requires t.m[w].red && !IsRed(t, x) && h.Keys == t.m.Keys && x != w && x != p
    requires RedAt(t, p, x, x) && RedAt(t, w, x, x) && (x == t.nil || x in t.m)
    requires BalancedAt(t, h, Gap(p, s), p) && BalancedAt(t, h, Gap(p, s), w)
    ensures BalancedAt(t', h, Gap(p, s), p) && BalancedAt(t', h, Gap(p, s), w)
    ensures Black(t', h, w) == Black(t, h, p)
    ensures RedAt(t', p, x, x) && RedAt(t', w, x, x) && !t'.m[w].red
    ensures t'.m[p].red && t'.m[p].Kid(s) == x && !IsRed(t', t'.m[p].Kid(!s))
  {
    KidsBalanced(t, h, Gap(p, s), p, s);
    KidsBalanced(t, h, Gap(p, s), w, s);
    var b, c := t.m[w].Kid(s), t.m[w].Kid(!s);
    assert u.m[p] == t.m[p].(red := true) && u.m[w] == t.m[w].(red := false);
    assert t'.m[p] == LinksAfter(u, p, s, p) && t'.m[w] == LinksAfter(u, p, s, w);
    forall k | k == b || k == c || k == x ensures k in t.m ==> t'.m[k].red == t.m[k].red {
      if k in t.m {
        assert u.m[k] == t.m[k] && t'.m[k] == LinksAfter(u, p, s, k);
      }
    }
    BalancedByKids(t', h, Gap(p, s), p, s);
    BalancedByKids(t', h, Gap(p, s), w, s);
  }

  lemma ErasedReds<T>(t: Tree<T>, key: T -> int, u: Tree<T>, t': Tree<T>, x: T, a: T, d: bool)
    requires Shape(t, key) && NoRedRed(t, x, x) && Pivot(t, a, d) && PaintedAround(t, u, a, d)
        && IsRotation(u, t', a, d)
    requires RedAt(t', a, x, x) && RedAt(t', t.m[a].Kid(!d), x, x) && x != a
    requires IsRed(t', t.m[a].Kid(!d)) ==> IsRed(t, a)
    ensures NoRedRed(t', x, x)
  {
    forall n | n in t'.m ensures RedAt(t', n, x, x) {
      if n != a && n != t.m[a].Kid(!d) {
        assert RedAt(t, n, x, x) && Linked(t, n) && Linked(t, t.m[a].Kid(!d)) && Linked(t, a);
        RepaintRotateRed(t, u, t', a, d, x, x, x, x, n);
      }
    }
  }

  lemma ErasedRoot<T>(t: Tree<T>, u: Tree<T>, t': Tree<T>, x: T, a: T, d: bool)
    requires t.root in t.m && Pivot(t, a, d) && PaintedAround(t, u, a, d) && IsRotation(u, t', a, d) && x != t.root
        && !IsRed(t, t.root)
    requires IsRed(t', t.m[a].Kid(!d)) ==> IsRed(t, a)
    requires t.root != t.m[a].Kid(!d)
    ensures t'.root in t'.m && !IsRed(t', t'.root)
    ensures x != t.m[a].Kid(!d) ==> t'.root != x
  {
    if t.root != a {
      ColourAfter(t, u, t', a, d, t.root);
    }
  }

  /** What one node of the state satisfies. */
  lemma AtNode<T>(t: Tree<T>, key: T -> int, h: map<T, nat>, x: T, p: T, s: bool, n: T)
    requires EraseState(t, key, h, x, p, s) && n in t.m
    ensures RedAt(t, n, x, x) && Linked(t, n)
    ensures x != t.root ==> BalancedAt(t, h, Gap(p, s), n)
    ensures h.Keys == t.m.Keys && t.root in t.m && t.nil !in t.m
  {
  }

  /** The sibling is red: recolour and rotate so that it is black. */
  lemma RedSiblingKeeps<T>(t: Tree<T>, u: Tree<T>, t': Tree<T>, key: T -> int, h: map<T, nat>, x: T, p: T, w: T,
      s: bool)
    requires EraseState(t, key, h, x, p, s) && x != t.root && !IsRed(t, x)
    requires w == t.m[p].Kid(!s) && IsRed(t, w) && Recoloured(t, u, w, p)
    requires Pivot(t, p, s) && IsRotation(u, t', p, s) && Shape(t', key)
    ensures EraseState(t', key, h, x, p, s) && x != t'.root && !IsRed(t', x)
    ensures !IsRed(t', t'.m[p].Kid(!s)) && t'.m[p].red
  {
    var _ := Sibling(t, key, h, x, p, s);
    AtNode(t, key, h, x, p, s, p);
    AtNode(t, key, h, x, p, s, w);
    RedSiblingTop(t, u, t', h, x, p, w, s);
    RecolouredAround(t, u, p, w, s);
    RepaintRotate(t, key, u, t', h, h, p, s, Gap(p, s), Gap(p, s));
    ErasedReds(t, key, u, t', x, p, s);
    ErasedRoot(t, u, t', x, p, s);
    ColourAfter(t, u, t', p, s, x);
  }

  lemma RecolouredAround<T>(t: Tree<T>, u: Tree<T>, p: T, w: T, s: bool)
    requires Pivot(t, p, s) && w == t.m[p].Kid(!s) && Recoloured(t, u, w, p)
    ensures PaintedAround(t, u, p, s)
  {
  }

  /** Where the shortage lies once everything below p is short by one. */
  ghost function GapAbove<T>(t: Tree<T>, p: T): Gap<T>
    requires p in t.m
  {
    var g := t.m[p].parent;
    if p == t.root || g !in t.m then NoGap else Gap(g, t.m[g].left != p)
  }

  lemma BlackSiblingAt<T>(t: Tree<T>, h: map<T, nat>, x: T, p: T, w: T, s: bool, n: T)
    requires p in t.m && w in t.m && w == t.m[p].Kid(!s) && x == t.m[p].Kid(s) && w != x && w != p && x != p
        && t.m[w].parent == p && t.nil !in t.m
    requires !t.m[w].red && !IsRed(t, x) && !IsRed(t, t.m[w].left) && !IsRed(t, t.m[w].right)
    requires n in t.m && Linked(t, n) && RedAt(t, n, x, x) && BalancedAt(t, h, Gap(p, s), n)
        && BalancedAt(t, h, Gap(p, s), p)
    requires Linked(t, p) && h.Keys == t.m.Keys && h[p] > 0 && t.m[w].left != w && t.m[w].right != w
    requires t.m[n].left == p || t.m[n].right == p ==> p != t.root && n != p
    requires t.m[n].left == t.m[n].right ==> t.m[n].left == t.nil
    ensures BalancedAt(Painted(t, w, true), h[p := (h[p] - 1) as nat], GapAbove(t, p), n)
    ensures RedAt(Painted(t, w, true), n, p, p)
  {
    KidsBalanced(t, h, Gap(p, s), p, s);
    if n == p {
      BalancedByKids(Painted(t, w, true), h[p := (h[p] - 1) as nat], GapAbove(t, p), p, s);
    }
  }

  /** The sibling and its children are black: it becomes red, and the shortage moves up to the parent. */
  lemma BlackSiblingKeeps<T>(t: Tree<T>, key: T -> int, h: map<T, nat>, x: T, p: T, w: T, s: bool)
    requires EraseState(t, key, h, x, p, s) && x != t.root && !IsRed(t, x)
    requires w == t.m[p].Kid(!s) && w in t.m && !IsRed(t, w) && !IsRed(t, t.m[w].left) && !IsRed(t, t.m[w].right)
    ensures p in h && h[p] > 0
    ensures var g := t.m[p].parent;
            var s' := if g in t.m then t.m[g].left != p else false;
            EraseState(Painted(t, w, true), key, h[p := (h[p] - 1) as nat], p, g, s')
  {
    var _ := Sibling(t, key, h, x, p, s);
    PaintKeepsShape(t, key, w, true);
    BlackSiblingAll(t, key, h, x, p, w, s);
    AtNode(t, key, h, x, p, s, p);
  }

  lemma KidsDiffer<T>(t: Tree<T>, key: T -> int, n: T)
    requires Shape(t, key) && n in t.m
    ensures t.m[n].left == t.m[n].right ==> t.m[n].left == t.nil
    ensures t.m[n].left != t.nil ==> t.m[n].left != n && t.m[n].left != t.root
    ensures t.m[n].right != t.nil ==> t.m[n].right != n && t.m[n].right != t.root
  {
    if t.m[n].left != t.nil { Family(t, key, n, false); }
    if t.m[n].right != t.nil { Family(t, key, n, true); }
  }

  lemma BlackSiblingEach<T>(t: Tree<T>, key: T -> int, h: map<T, nat>, x: T, p: T, w: T, s: bool, n: T)
    requires EraseState(t, key, h, x, p, s) && x != t.root && !IsRed(t, x)
    requires w == t.m[p].Kid(!s) && w in t.m && !IsRed(t, w) && !IsRed(t, t.m[w].left) && !IsRed(t, t.m[w].right)
    requires n in t.m
    ensures p in h && h[p] > 0
    ensures BalancedAt(Painted(t, w, true), h[p := (h[p] - 1) as nat], GapAbove(t, p), n)
    ensures RedAt(Painted(t, w, true), n, p, p)
  {
    var _ := Sibling(t, key, h, x, p, s);
    AtNode(t, key, h, x, p, s, p);
    AtNode(t, key, h, x, p, s, n);
    KidsDiffer(t, key, w);
    KidsDiffer(t, key, n);
    BlackSiblingAt(t, h, x, p, w, s, n);
  }

  lemma BlackSiblingAll<T>(t: Tree<T>, key: T -> int, h: map<T, nat>, x: T, p: T, w: T, s: bool)
    requires EraseState(t, key, h, x, p, s) && x != t.root && !IsRed(t, x)
    requires w == t.m[p].Kid(!s) && w in t.m && !IsRed(t, w) && !IsRed(t, t.m[w].left) && !IsRed(t, t.m[w].right)
    requires p in h && h[p] > 0
    ensures NoRedRed(Painted(t, w, true), p, p)
        && Balanced(Painted(t, w, true), h[p := (h[p] - 1) as nat], GapAbove(t, p))
  {
    var t', h' := Painted(t, w, true), h[p := (h[p] - 1) as nat];
    forall n | n in t.m ensures BalancedAt(t', h', GapAbove(t, p), n) && RedAt(t', n, p, p) {
      BlackSiblingEach(t, key, h, x, p, w, s, n);
    }
  }

  lemma InnerNephewTop<T>(t: Tree<T>, u: Tree<T>, t': Tree<T>, h: map<T, nat>, x: T, p: T, w: T, r: T, s: bool)
    requires p in t.m && Pivot(t, w, !s) && w == t.m[p].Kid(!s) && r == t.m[w].Kid(s) && Recoloured(t, u, r, w)
        && IsRotation(u, t', w, !s)
    requires !t.m[w].red && t.m[r].red && !IsRed(t, t.m[w].Kid(!s)) && h.Keys == t.m.Keys
    requires RedAt(t, r, x, x) && r != x && !IsRed(t, x)
    requires BalancedAt(t, h, Gap(p, s), w) && BalancedAt(t, h, Gap(p, s), r) && w != p && r != p
    ensures BalancedAt(t', h, Gap(p, s), w) && BalancedAt(t', h, Gap(p, s), r)
    ensures Black(t', h, r) == Black(t, h, w)
    ensures RedAt(t', w, x, x) && RedAt(t', r, x, x) && !t'.m[r].red && t'.m[r].Kid(!s) == w && t'.m[w].red
  {
    KidsBalanced(t, h, Gap(p, s), w, s);
    KidsBalanced(t, h, Gap(p, s), r, s);
    var b, c, q := t.m[r].Kid(!s), t.m[r].Kid(s), t.m[w].Kid(!s);
    assert u.m[w] == t.m[w].(red := true) && u.m[r] == t.m[r].(red := false);
    assert t'.m[w] == LinksAfter(u, w, !s, w) && t'.m[r] == LinksAfter(u, w, !s, r);
    forall k | k == b || k == c || k == q ensures k in t.m ==> t'.m[k].red == t.m[k].red {
      if k in t.m {
        assert u.m[k] == t.m[k] && t'.m[k] == LinksAfter(u, w, !s, k);
      }
    }
    BalancedByKids(t', h, Gap(p, s), w, s);
    BalancedByKids(t', h, Gap(p, s), r, s);
  }

  /** Only the nearer child of the black sibling is red: rotate it into the sibling's place. */
  lemma InnerNephewKeeps<T>(t: Tree<T>, u: Tree<T>, t': Tree<T>, key: T -> int, h: map<T, nat>, x: T, p: T, w: T,
      r: T, s: bool)
    requires EraseState(t, key, h, x, p, s) && x != t.root && !IsRed(t, x)
    requires w == t.m[p].Kid(!s) && w in t.m && !IsRed(t, w) && !IsRed(t, t.m[w].Kid(!s)) && r == t.m[w].Kid(s)
        && IsRed(t, r)
    requires Recoloured(t, u, r, w) && Pivot(t, w, !s) && IsRotation(u, t', w, !s) && Shape(t', key)
    ensures EraseState(t', key, h, x, p, s) && x != t'.root && !IsRed(t', x)
    ensures t'.m[p].Kid(!s) == r && !IsRed(t', r) && t'.m[r].Kid(!s) == w && IsRed(t', w) && t'.m[p].red == t.m[p].red
  {
    var _ := Sibling(t, key, h, x, p, s);
    AtNode(t, key, h, x, p, s, r);
    AtNode(t, key, h, x, p, s, w);
    AtNode(t, key, h, x, p, s, p);
    NephewIsNotX(t, key, x, p, w, r, s, s);
    InnerNephewTop(t, u, t', h, x, p, w, r, s);
    RecolouredAround(t, u, w, r, !s);
    RepaintRotate(t, key, u, t', h, h, w, !s, Gap(p, s), Gap(p, s));
    ErasedReds(t, key, u, t', x, w, !s);
    ErasedRoot(t, u, t', x, w, !s);
    ColourAfter(t, u, t', w, !s, x);
    InnerNephewLinks(t, u, t', p, w, r, s);
  }

  lemma InnerNephewLinks<T>(t: Tree<T>, u: Tree<T>, t': Tree<T>, p: T, w: T, r: T, s: bool)
    requires p in t.m && w == t.m[p].Kid(!s) && w in t.m && t.m[w].parent == p && w != p && Linked(t, p)
    requires r == t.m[w].Kid(s) && Recoloured(t, u, r, w) && Pivot(t, w, !s) && IsRotation(u, t', w, !s)
    ensures t'.m[p].Kid(!s) == r && t'.m[p].Kid(s) == t.m[p].Kid(s) && t'.m[p].red == t.m[p].red
  {
    assert u.m[p] == t.m[p] && t'.m[p] == LinksAfter(u, w, !s, p);
  }

  lemma NephewIsNotX<T>(t: Tree<T>, key: T -> int, x: T, p: T, w: T, r: T, s: bool, e: bool)
    requires Shape(t, key) && p in t.m && w == t.m[p].Kid(!s) && w in t.m && x == t.m[p].Kid(s) && w != x
    requires r == t.m[w].Kid(e) && r in t.m
    ensures r != x && r != p && w != p && t.m[w].parent == p && r != t.root && w != t.root && x != w
    ensures x == t.nil ==> x !in t.m
  {
    Family(t, key, p, !s);
    Family(t, key, w, e);
    if x != t.nil { Family(t, key, p, s); }
  }

  /** The farther child of the black sibling is red: the sibling takes the parent's place and colour. */
  ghost predicate OuterNephew<T>(t: Tree<T>, u: Tree<T>, p: T, w: T, q: T)
    requires p in t.m
  {
    && SameLinks(t, u)
    && forall n :: n in t.m
        ==> u.m[n].red == (if n == w then t.m[p].red else if n == p || n == q then false else t.m[n].red)
  }

  ghost function OuterHeights<T>(h: map<T, nat>, p: T, w: T): map<T, nat>
    requires p in h && h[p] > 0 && w in h
  {
    h[p := (h[p] - 1) as nat][w := h[w] + 1]
  }

  lemma OuterNephewTop<T>(t: Tree<T>, u: Tree<T>, t': Tree<T>, h: map<T, nat>, x: T, p: T, w: T, q: T, s: bool)
    requires p in t.m && Pivot(t, p, s) && w == t.m[p].Kid(!s) && x == t.m[p].Kid(s) && q == t.m[w].Kid(!s)
    requires OuterNephew(t, u, p, w, q) && IsRotation(u, t', p, s)
    requires !t.m[w].red && IsRed(t, q) && !IsRed(t, x) && h.Keys == t.m.Keys && x != w && x != p && x != q
        && (x == t.nil || x in t.m)
    requires RedAt(t, q, x, x) && RedAt(t, p, x, x) && h[p] > 0 && q != p
    requires BalancedAt(t, h, Gap(p, s), p) && BalancedAt(t, h, Gap(p, s), w) && BalancedAt(t, h, Gap(p, s), q)
    ensures BalancedAt(t', OuterHeights(h, p, w), NoGap, p) && BalancedAt(t', OuterHeights(h, p, w), NoGap, w)
    ensures Black(t', OuterHeights(h, p, w), w) == Black(t, h, p)
    ensures RedAt(t', p, x, x) && RedAt(t', w, x, x) && t'.m[w].red == t.m[p].red && !t'.m[p].red
  {
    var h' := OuterHeights(h, p, w);
    KidsBalanced(t, h, Gap(p, s), p, s);
    KidsBalanced(t, h, Gap(p, s), w, s);
    var b := t.m[w].Kid(s);
    assert u.m[p] == t.m[p].(red := false) && u.m[w] == t.m[w].(red := t.m[p].red) && u.m[q] == t.m[q].(red := false);
    assert t'.m[p] == LinksAfter(u, p, s, p) && t'.m[w] == LinksAfter(u, p, s, w) && t'.m[q] == LinksAfter(u, p, s, q);
    forall k | k == b || k == x ensures k in t.m ==> t'.m[k].red == t.m[k].red {
      if k in t.m {
        assert u.m[k] == t.m[k] && t'.m[k] == LinksAfter(u, p, s, k);
      }
    }
    BalancedByKids(t', h', NoGap, p, s);
    BalancedByKids(t', h', NoGap, w, s);
  }

  lemma OuterNephewAround<T>(t: Tree<T>, u: Tree<T>, p: T, w: T, q: T, s: bool)
    requires p in t.m && Pivot(t, p, s) && w == t.m[p].Kid(!s) && q == t.m[w].Kid(!s) && OuterNephew(t, u, p, w, q)
    ensures PaintedAround(t, u, p, s)
  {
  }

  /** That rotation repairs the shortage. */
  lemma OuterNephewKeeps<T>(t: Tree<T>, u: Tree<T>, t': Tree<T>, key: T -> int, h: map<T, nat>, x: T, p: T, w: T,
      q: T, s: bool)
    requires EraseState(t, key, h, x, p, s) && x != t.root && !IsRed(t, x)
    requires w == t.m[p].Kid(!s) && w in t.m && !IsRed(t, w) && q == t.m[w].Kid(!s) && IsRed(t, q)
    requires OuterNephew(t, u, p, w, q) && Pivot(t, p, s) && IsRotation(u, t', p, s) && Shape(t', key)
    ensures p in h && h[p] > 0 && w in h && t'.root in t'.m && !IsRed(t', t'.root)
    ensures NoRedRed(t', x, x) && Balanced(t', OuterHeights(h, p, w), NoGap)
  {
    OuterNephewFacts(t, u, t', key, h, x, p, w, q, s);
    RepaintRotate(t, key, u, t', h, OuterHeights(h, p, w), p, s, Gap(p, s), NoGap);
    ErasedReds(t, key, u, t', x, p, s);
    ErasedRoot(t, u, t', x, p, s);
  }

  lemma OuterNephewFacts<T>(t: Tree<T>, u: Tree<T>, t': Tree<T>, key: T -> int, h: map<T, nat>, x: T, p: T, w: T,
      q: T, s: bool)
    requires EraseState(t, key, h, x, p, s) && x != t.root && !IsRed(t, x)
    requires w == t.m[p].Kid(!s) && w in t.m && !IsRed(t, w) && q == t.m[w].Kid(!s) && IsRed(t, q)
    requires OuterNephew(t, u, p, w, q) && Pivot(t, p, s) && IsRotation(u, t', p, s) && Shape(t', key)
    ensures p in h && h[p] > 0 && w in h && x != p && t.root in t.m && t.root != w && !IsRed(t, t.root)
    ensures PaintedAround(t, u, p, s) && SameHeightsBut(h, OuterHeights(h, p, w), p, w)
    ensures BalancedAt(t', OuterHeights(h, p, w), NoGap, p) && BalancedAt(t', OuterHeights(h, p, w), NoGap, w)
    ensures Black(t', OuterHeights(h, p, w), w) == Black(t, h, p)
    ensures RedAt(t', p, x, x) && RedAt(t', w, x, x) && (IsRed(t', w) ==> IsRed(t, p))
  {
    OuterNephewBefore(t, key, h, x, p, w, q, s);
    OuterNephewTop(t, u, t', h, x, p, w, q, s);
    OuterNephewAround(t, u, p, w, q, s);
    OuterHeightsBut(h, p, w);
  }

  lemma OuterHeightsBut<T>(h: map<T, nat>, p: T, w: T)
    requires p in h && h[p] > 0 && w in h
    ensures SameHeightsBut(h, OuterHeights(h, p, w), p, w)
  {
  }

  lemma OuterNephewBefore<T>(t: Tree<T>, key: T -> int, h: map<T, nat>, x: T, p: T, w: T, q: T, s: bool)
    requires EraseState(t, key, h, x, p, s) && x != t.root && !IsRed(t, x)
    requires w == t.m[p].Kid(!s) && w in t.m && !IsRed(t, w) && q == t.m[w].Kid(!s) && IsRed(t, q)
    ensures h.Keys == t.m.Keys && h[p] > 0 && x != w && x != p && x != q && q != p && (x == t.nil || x in t.m)
    ensures RedAt(t, q, x, x) && RedAt(t, p, x, x) && t.root in t.m && t.root != w && !IsRed(t, t.root)
    ensures BalancedAt(t, h, Gap(p, s), p) && BalancedAt(t, h, Gap(p, s), w) && BalancedAt(t, h, Gap(p, s), q)
  {
    var _ := Sibling(t, key, h, x, p, s);
    AtNode(t, key, h, x, p, s, p);
    AtNode(t, key, h, x, p, s, w);
    AtNode(t, key, h, x, p, s, q);
    NephewIsNotX(t, key, x, p, w, q, s, !s);
  }

  /** Where the loop leaves the map: the node it stopped at, if there is one, is painted black. */
  lemma EraseDone<T>(t: Tree<T>, key: T -> int, h: map<T, nat>, x: T, p: T, s: bool)
    requires EraseState(t, key, h, x, p, s) && (x == t.root || IsRed(t, x))
    ensures x == t.nil ==> t.m.Keys == {} && RedBlack(t, key, h)
    ensures x != t.nil ==> x in t.m && RedBlack(Painted(t, x, false), key, h)
  {
    if x != t.nil {
      PaintKeepsShape(t, key, x, false);
      forall n | n in t.m
        ensures BalancedAt(Painted(t, x, false), h, NoGap, n)
        ensures RedAt(Painted(t, x, false), n, t.nil, t.nil)
      {
        EraseDoneAt(t, key, h, x, p, s, n);
      }
    }
  }

  lemma EraseDoneAt<T>(t: Tree<T>, key: T -> int, h: map<T, nat>, x: T, p: T, s: bool, n: T)
    requires EraseState(t, key, h, x, p, s) && (x == t.root || IsRed(t, x)) && x in t.m && n in t.m
    ensures BalancedAt(Painted(t, x, false), h, NoGap, n)
    ensures RedAt(Painted(t, x, false), n, t.nil, t.nil)
  {
    AtNode(t, key, h, x, p, s, n);
    KidsDiffer(t, key, n);
    if x == t.root {
      assert BalancedAt(t, h, NoGap, n);
      PaintAloneAt(t, h, x, n);
    } else {
      KidsDiffer(t, key, p);
      Family(t, key, p, s);
      CloseGapAt(t, h, x, p, s, n);
    }
  }

  lemma PaintAloneAt<T>(t: Tree<T>, h: map<T, nat>, x: T, n: T)
    requires x in t.m && n in t.m && t.m[n].left != x && t.m[n].right != x
    requires BalancedAt(t, h, NoGap, n) && RedAt(t, n, x, x)
    ensures BalancedAt(Painted(t, x, false), h, NoGap, n)
    ensures RedAt(Painted(t, x, false), n, t.nil, t.nil)
  {
  }

  lemma CloseGapAt<T>(t: Tree<T>, h: map<T, nat>, x: T, p: T, s: bool, n: T)
    requires x in t.m && p in t.m && n in t.m && t.m[x].red && t.m[p].Kid(s) == x && t.m[p].Kid(!s) != x
        && t.m[x].parent == p
    requires h.Keys == t.m.Keys && BalancedAt(t, h, Gap(p, s), n) && RedAt(t, n, x, x) && Linked(t, n)
    requires t.nil !in t.m
    ensures BalancedAt(Painted(t, x, false), h, NoGap, n)
    ensures RedAt(Painted(t, x, false), n, t.nil, t.nil)
  {
  }

  /** The condition of the loop. */
  ghost predicate MustRebalance<T>(t: Tree<T>, x: T) {
    x != t.root && !IsRed(t, x)
  }

  /** How far the loop still is from its end. */
  ghost function EraseMeasure<T>(t: Tree<T>, x: T): nat {
    if !MustRebalance(t, x) || |t.m.Keys| < |t.Desc(x)| then 0 else 1 + |t.m.Keys| - |t.Desc(x)|
  }

  lemma RedSiblingStep<T>(t: Tree<T>, key: T -> int, h: map<T, nat>, x: T, p: T, w: T, s: bool)
    requires EraseState(t, key, h, x, p, s) && MustRebalance(t, x) && w == t.m[p].Kid(!s) && IsRed(t, w)
    ensures CanTurn(t, w, p, s)
    ensures var t' := Turned(t, w, p, s);
            EraseState(t', key, h, x, p, s) && MustRebalance(t', x) && !IsRed(t', t'.m[p].Kid(!s)) && t'.m[p].red
  {
    var _ := Sibling(t, key, h, x, p, s);
    PaintTwo(t, key, w, p);
    var u := Swapped(t, w, p);
    RotateKeepsShape(u, key, p, s);
    RedSiblingKeeps(t, u, Rotated(u, p, s), key, h, x, p, w, s);
  }

  lemma InnerNephewReady<T>(t: Tree<T>, key: T -> int, h: map<T, nat>, x: T, p: T, w: T, r: T, s: bool)
    requires EraseState(t, key, h, x, p, s) && MustRebalance(t, x) && w == t.m[p].Kid(!s)
    requires w in t.m && !IsRed(t, w) && !IsRed(t, t.m[w].Kid(!s)) && r == t.m[w].Kid(s) && IsRed(t, r)
    ensures r in t.m && r != w && Recoloured(t, Swapped(t, r, w), r, w)
    ensures CanRotate(Swapped(t, r, w), key, w, !s)
  {
    var _ := Sibling(t, key, h, x, p, s);
    NephewIsNotX(t, key, x, p, w, r, s, s);
    Family(t, key, w, s);
    PaintTwo(t, key, r, w);
  }

  lemma InnerNephewStep<T>(t: Tree<T>, key: T -> int, h: map<T, nat>, x: T, p: T, w: T, r: T, s: bool)
    requires EraseState(t, key, h, x, p, s) && MustRebalance(t, x) && w == t.m[p].Kid(!s)
    requires w in t.m && !IsRed(t, w) && !IsRed(t, t.m[w].Kid(!s)) && r == t.m[w].Kid(s) && IsRed(t, r)
    ensures CanTurn(t, r, w, !s)
    ensures var t' := Turned(t, r, w, !s);
            && EraseState(t', key, h, x, p, s) && MustRebalance(t', x)
            && t'.m[p].Kid(!s) == r && r in t'.m && !IsRed(t', r) && IsRed(t', t'.m[r].Kid(!s))
  {
    InnerNephewReady(t, key, h, x, p, w, r, s);
    var u := Swapped(t, r, w);
    RotateKeepsShape(u, key, w, !s);
    hide Shape, EraseState, Linked, Ordered;
    InnerNephewKeeps(t, u, Rotated(u, w, !s), key, h, x, p, w, r, s);
  }

  /** The colours of the last rotation: the sibling takes the parent's, the other two become black. */
  ghost function Handed<T>(t: Tree<T>, p: T, w: T, q: T): Tree<T>
    requires p in t.m && w in t.m && q in t.m
  {
    Painted(Painted(Painted(t, w, t.m[p].red), p, false), q, false)
  }

  lemma HandedIs<T>(t: Tree<T>, key: T -> int, p: T, w: T, q: T)
    requires Shape(t, key) && p in t.m && w in t.m && q in t.m && p != w && q != w
    ensures Shape(Handed(t, p, w, q), key) && OuterNephew(t, Handed(t, p, w, q), p, w, q)
  {
    PaintKeepsShape(t, key, w, t.m[p].red);
    PaintKeepsShape(Painted(t, w, t.m[p].red), key, p, false);
    PaintKeepsShape(Painted(Painted(t, w, t.m[p].red), p, false), key, q, false);
  }

  ghost predicate CanSettle<T>(t: Tree<T>, p: T, w: T, q: T, s: bool) {
    p in t.m && w in t.m && q in t.m && Pivot(Handed(t, p, w, q), p, s)
  }

  ghost function Settled<T>(t: Tree<T>, p: T, w: T, q: T, s: bool): Tree<T>
    requires CanSettle(t, p, w, q, s)
  {
    Rotated(Handed(t, p, w, q), p, s)
  }

  lemma OuterNephewStep<T>(t: Tree<T>, key: T -> int, h: map<T, nat>, x: T, p: T, w: T, q: T, s: bool)
    requires EraseState(t, key, h, x, p, s) && MustRebalance(t, x) && w == t.m[p].Kid(!s)
    requires w in t.m && !IsRed(t, w) && q == t.m[w].Kid(!s) && IsRed(t, q)
    ensures CanSettle(t, p, w, q, s) && p in h && h[p] > 0 && w in h
    ensures var t' := Settled(t, p, w, q, s); EraseState(t', key, OuterHeights(h, p, w), t'.root, p, s)
  {
    var _ := Sibling(t, key, h, x, p, s);
    Family(t, key, w, !s);
    HandedIs(t, key, p, w, q);
    var u := Handed(t, p, w, q);
    RotateKeepsShape(u, key, p, s);
    var t' := Rotated(u, p, s);
    OuterNephewKeeps(t, u, t', key, h, x, p, w, q, s);
    ColourOfX(t, u, t', x, p, w, s);
    BlackAlone(t', x);
  }

  lemma ColourOfX<T>(t: Tree<T>, u: Tree<T>, t': Tree<T>, x: T, p: T, w: T, s: bool)
    requires Pivot(t, p, s) && w == t.m[p].Kid(!s) && PaintedAround(t, u, p, s) && IsRotation(u, t', p, s) && x != p
        && x != w && !IsRed(t, x)
    ensures !IsRed(t', x)
  {
    ColourAfter(t, u, t', p, s, x);
  }

  lemma BlackAlone<T>(t: Tree<T>, x: T)
    requires NoRedRed(t, x, x) && !IsRed(t, x) && !IsRed(t, t.root)
    ensures NoRedRed(t, t.root, t.root)
  {
    forall n | n in t.m ensures RedAt(t, n, t.root, t.root) {
      assert RedAt(t, n, x, x);
    }
  }

  lemma BlackSiblingStep<T>(t: Tree<T>, key: T -> int, h: map<T, nat>, x: T, p: T, w: T, s: bool) returns (s': bool)
    requires EraseState(t, key, h, x, p, s) && MustRebalance(t, x)
    requires w == t.m[p].Kid(!s) && w in t.m && !IsRed(t, w) && !IsRed(t, t.m[w].left) && !IsRed(t, t.m[w].right)
    ensures p in h && h[p] > 0 && p in t.m
    ensures EraseState(Painted(t, w, true), key, h[p := (h[p] - 1) as nat], p, t.m[p].parent, s')
    ensures t.m[p].red ==> EraseMeasure(Painted(t, w, true), p) == 0
    ensures EraseMeasure(Painted(t, w, true), p) < EraseMeasure(t, x)
  {
    var _ := Sibling(t, key, h, x, p, s);
    var g := t.m[p].parent;
    s' := if g in t.m then t.m[g].left != p else false;
    BlackSiblingKeeps(t, key, h, x, p, w, s);
    ParentMeasure(t, key, x, p, s);
    assert t.desc == Painted(t, w, true).desc && t.m.Keys == Painted(t, w, true).m.Keys;
  }

  lemma ParentMeasure<T>(t: Tree<T>, key: T -> int, x: T, p: T, s: bool)
    requires Shape(t, key) && MustRebalance(t, x) && p in t.m && t.m[p].Kid(s) == x && (x == t.nil || x in t.m)
    ensures |t.Desc(x)| < |t.Desc(p)| <= |t.m.Keys|
  {
    if x in t.m {
      Family(t, key, p, s);
      ParentSubtree(t, key, x, p);
    } else {
      InSubtree(t, key, p);
      SubsetSize({p}, t.desc[p]);
    }
    assert Ordered(t, key, p);
    SubsetSize(t.desc[p], t.m.Keys);
  }

  /** The node the loop looks at is the sentinel or one of the tree's, and not at the end. */
  lemma EraseNode<T>(t: Tree<T>, key: T -> int, h: map<T, nat>, x: T, p: T, s: bool)
    requires EraseState(t, key, h, x, p, s)
    ensures x == t.nil || x in t.m
    ensures MustRebalance(t, x) ==> EraseMeasure(t, x) > 0 && p in t.m && t.m[p].Kid(s) == x && s == (x != t.m[p].left)
    ensures MustRebalance(t, x) ==> var w := t.m[p].Kid(!s);
        w in t.m
        && (forall d :: t.m[w].Kid(d) == t.nil || t.m[w].Kid(d) in t.m)
  {
    if x != t.root {
      assert Linked(t, p);
      if MustRebalance(t, x) {
        var _ := Sibling(t, key, h, x, p, s);
        ParentMeasure(t, key, x, p, s);
      }
    }
  }
}
