/** The post-insert fix-up of cc_omap, case by case. */
module TreeInsert {
  import opened Pigeonhole
  import opened TreeShape
  import opened TreeColours

  /** Only the red node z may have a red parent. */
  ghost predicate InsertState<T>(t: Tree<T>, key: T -> int, h: map<T, nat>, z: T) {
    && Shape(t, key) && Balanced(t, h, NoGap)
    && z in t.m && t.m[z].red && NoRedRed(t, z, t.nil)
    && (IsRed(t, t.root) ==> t.root == z)
  }

  /** A node on the side !d of its parent p, which is on the side !e of its own parent g. */
  ghost predicate Line<T>(t: Tree<T>, z: T, p: T, g: T, d: bool, e: bool) {
    && z in t.m && p in t.m && g in t.m && t.nil !in t.m
    && t.m[z].parent == p && t.m[p].parent == g
    && t.m[p].Kid(!d) == z && t.m[g].Kid(!e) == p
    && z != p && z != g && p != g
    && t.m[p].Kid(d) != z && t.m[p].Kid(d) != g && t.m[g].Kid(e) != p && t.m[g].Kid(e) != z
    && t.m[g].parent != p && (t.m[g].Kid(e) != t.nil ==> t.m[g].parent != t.m[g].Kid(e))
  }

  /** z has a red parent; its grandparent exists and is black. */
  lemma Grandparent<T>(t: Tree<T>, key: T -> int, h: map<T, nat>, z: T) returns (p: T, g: T, d: bool, e: bool)
    requires InsertState(t, key, h, z) && z != t.root && IsRed(t, t.m[z].parent)
    ensures p == t.m[z].parent && p in t.m && g == t.m[p].parent && g in t.m && !t.m[g].red
    ensures d == (z == t.m[p].left) && e == (p == t.m[g].left) && Line(t, z, p, g, d, e)
    ensures !IsRed(t, t.m[p].Kid(d))
  {
    p := t.m[z].parent;
    assert Linked(t, z) && Linked(t, p) && RedAt(t, p, z, t.nil);
    d := z == t.m[p].left;
    Family(t, key, p, !d);
    g := t.m[p].parent;
    assert Linked(t, g) && RedAt(t, g, z, t.nil);
    e := p == t.m[g].left;
    Family(t, key, g, !e);
    if t.m[g].Kid(e) != t.nil {
      Family(t, key, g, e);
    }
    if t.m[p].Kid(d) != t.nil {
      Family(t, key, p, d);
    }
  }

  /** The uncle is red: parent and uncle become black, and the grandparent is the next red node to look at. */
  ghost predicate RedUncle<T>(t: Tree<T>, t': Tree<T>, p: T, u: T, g: T) {
    && SameLinks(t, t')
    && forall n :: n in t.m ==> t'.m[n].red == (if n == p || n == u then false else if n == g then true else t.m[n].red)
  }

  lemma RedUncleAt<T>(t: Tree<T>, t': Tree<T>, h: map<T, nat>, z: T, p: T, u: T, g: T, d: bool, e: bool, n: T)
    requires Line(t, z, p, g, d, e) && u == t.m[g].Kid(e) && u in t.m && t.m[u].parent == g
    requires t.m[p].red && t.m[u].red && !t.m[g].red && RedUncle(t, t', p, u, g)
    requires n in t.m && BalancedAt(t, h, NoGap, n) && BalancedAt(t, h, NoGap, g) && h.Keys == t.m.Keys
    requires Linked(t, n) && RedAt(t, n, z, t.nil) && RedAt(t, u, z, t.nil) && !IsRed(t, t.m[p].Kid(d))
    ensures BalancedAt(t', h[g := h[g] + 1], NoGap, n)
    ensures RedAt(t', n, g, t.nil)
  {
    KidsBalanced(t, h, NoGap, g, e);
    assert forall k :: k in t.m ==> t'.m[k] == t.m[k].(red := t'.m[k].red);
    if n == g {
      BalancedByKids(t', h[g := h[g] + 1], NoGap, n, e);
    }
  }

  lemma RedUncleKeeps<T>(t: Tree<T>, t': Tree<T>, key: T -> int, h: map<T, nat>, z: T, p: T, u: T, g: T)
    requires InsertState(t, key, h, z) && z != t.root && IsRed(t, t.m[z].parent)
    requires p == t.m[z].parent && g == t.m[p].parent && g in t.m && u == t.m[g].Kid(p == t.m[g].left) && IsRed(t, u)
    requires RedUncle(t, t', p, u, g) && Shape(t', key)
    ensures g in h && InsertState(t', key, h[g := h[g] + 1], g)
  {
    RedUncleBalance(t, t', key, h, z, p, u, g);
    assert Linked(t, p) && Linked(t, z);
    RedUncleNodes(t, key, h, z, p, u, g);
  }

  lemma RedUncleBalance<T>(t: Tree<T>, t': Tree<T>, key: T -> int, h: map<T, nat>, z: T, p: T, u: T, g: T)
    requires InsertState(t, key, h, z) && z != t.root && IsRed(t, t.m[z].parent)
    requires p == t.m[z].parent && g == t.m[p].parent && g in t.m && u == t.m[g].Kid(p == t.m[g].left) && IsRed(t, u)
    requires RedUncle(t, t', p, u, g)
    ensures g in h && Balanced(t', h[g := h[g] + 1], NoGap) && NoRedRed(t', g, t.nil)
  {
    var _, _, d, e := Grandparent(t, key, h, z);
    assert Linked(t, g) && RedAt(t, u, z, t.nil) && BalancedAt(t, h, NoGap, g);
    forall n | n in t.m ensures BalancedAt(t', h[g := h[g] + 1], NoGap, n) && RedAt(t', n, g, t.nil) {
      assert Linked(t, n) && RedAt(t, n, z, t.nil) && BalancedAt(t, h, NoGap, n);
      RedUncleAt(t, t', h, z, p, u, g, d, e, n);
    }
  }

  lemma OuterTop<T>(t: Tree<T>, u: Tree<T>, t': Tree<T>, h: map<T, nat>, z: T, p: T, g: T, e: bool)
    requires Line(t, z, p, g, e, e) && Pivot(t, g, e) && Pivot(u, g, e) && Recoloured(t, u, p, g)
        && IsRotation(u, t', g, e)
    requires t.m[p].red && t.m[z].red && !t.m[g].red && h.Keys == t.m.Keys
    requires BalancedAt(t, h, NoGap, g) && BalancedAt(t, h, NoGap, p)
    requires !IsRed(t, t.m[g].Kid(e)) && !IsRed(t, t.m[p].Kid(e))
    ensures BalancedAt(t', h, NoGap, g) && BalancedAt(t', h, NoGap, p) && Black(t', h, p) == Black(t, h, g)
    ensures RedAt(t', g, z, t.nil) && RedAt(t', p, z, t.nil)
    ensures t'.m[z].parent == p && !t'.m[p].red && t'.m[z].red
  {
    KidsBalanced(t, h, NoGap, g, e);
    KidsBalanced(t, h, NoGap, p, e);
    assert u.m[p] == t.m[p].(red := false) && u.m[g] == t.m[g].(red := true) && u.m[z] == t.m[z];
    var b, c := t.m[p].Kid(e), t.m[g].Kid(e);
    assert b in t.m ==> u.m[b] == t.m[b];
    assert c in t.m ==> u.m[c] == t.m[c];
    assert t'.m[g] == LinksAfter(u, g, e, g) && t'.m[p] == LinksAfter(u, g, e, p) && t'.m[z] == LinksAfter(u, g, e, z);
    assert b in t.m ==> t'.m[b] == LinksAfter(u, g, e, b);
    assert c in t.m ==> t'.m[c] == LinksAfter(u, g, e, c);
    BalancedByKids(t', h, NoGap, g, e);
    BalancedByKids(t', h, NoGap, p, e);
  }

  lemma OuterKeeps<T>(t: Tree<T>, u: Tree<T>, t': Tree<T>, key: T -> int, h: map<T, nat>, z: T, p: T, g: T, e: bool)
    requires InsertState(t, key, h, z) && IsRed(t, p) && !IsRed(t, g) && Line(t, z, p, g, e, e)
    requires !IsRed(t, t.m[g].Kid(e)) && !IsRed(t, t.m[p].Kid(e))
    requires Recoloured(t, u, p, g) && CanRotate(u, key, g, e) && IsRotation(u, t', g, e) && Shape(t', key)
    ensures InsertState(t', key, h, z)
    ensures t'.m[z].parent == p && !t'.m[p].red
  {
    assert CanRotate(t, key, g, e);
    RotatePivot(t, key, g, e);
    assert BalancedAt(t, h, NoGap, g) && BalancedAt(t, h, NoGap, p);
    assert Linked(t, p) && Linked(t, z);
    OuterTop(t, u, t', h, z, p, g, e);
    assert PaintedAround(t, u, g, e);
    RepaintRotate(t, key, u, t', h, h, g, e, NoGap, NoGap);
    OuterReds(t, u, t', key, z, p, g, e);
    OuterRoot(t, u, t', p, g, e);
  }

  lemma OuterRoot<T>(t: Tree<T>, u: Tree<T>, t': Tree<T>, p: T, g: T, e: bool)
    requires Pivot(t, g, e) && Recoloured(t, u, p, g) && IsRotation(u, t', g, e) && p == t.m[g].Kid(!e)
    requires t.root in t.m && (t.root != g ==> !t.m[t.root].red) && t.root != p
    ensures t'.root in t'.m && !IsRed(t', t'.root)
  {
    assert u.m[g] == t.m[g].(red := true);
    assert t'.m[t'.root] == LinksAfter(u, g, e, t'.root);
  }

  lemma OuterReds<T>(t: Tree<T>, u: Tree<T>, t': Tree<T>, key: T -> int, z: T, p: T, g: T, e: bool)
    requires Shape(t, key) && NoRedRed(t, z, t.nil) && Line(t, z, p, g, e, e)
    requires PaintedAround(t, u, g, e) && Pivot(t, g, e) && IsRotation(u, t', g, e)
    requires RedAt(t', g, z, t.nil) && RedAt(t', p, z, t.nil) && !t'.m[p].red
    ensures NoRedRed(t', z, t.nil)
  {
    forall n | n in t'.m ensures RedAt(t', n, z, t.nil) {
      if n != g && n != p {
        assert RedAt(t, n, z, t.nil) && Linked(t, n) && Linked(t, p);
        RepaintRotateRed(t, u, t', g, e, z, z, t.nil, t.nil, n);
      }
    }
  }

  lemma InnerTop<T>(t: Tree<T>, t': Tree<T>, h: map<T, nat>, z: T, p: T, g: T, d: bool)
    requires Line(t, z, p, g, d, !d) && Pivot(t, p, d) && IsRotation(t, t', p, d)
    requires t.m[p].red && t.m[z].red && !t.m[g].red && h.Keys == t.m.Keys
    requires BalancedAt(t, h, NoGap, z) && BalancedAt(t, h, NoGap, p)
    requires RedAt(t, z, z, t.nil) && !IsRed(t, t.m[p].Kid(d)) && Linked(t, z)
    ensures BalancedAt(t', h, NoGap, z) && BalancedAt(t', h, NoGap, p) && Black(t', h, z) == Black(t, h, p)
    ensures RedAt(t', z, p, t.nil) && RedAt(t', p, p, t.nil)
    ensures t'.m[p].parent == z && t'.m[z].parent == g && t'.m[z].Kid(d) == p && t'.m[g].Kid(d) == z && t'.m[p].red
        && t'.m[z].red && !t'.m[g].red
  {
    KidsBalanced(t, h, NoGap, z, d);
    KidsBalanced(t, h, NoGap, p, d);
    var a, b, c := t.m[p].Kid(d), t.m[z].Kid(d), t.m[z].Kid(!d);
    assert t'.m[z] == LinksAfter(t, p, d, z) && t'.m[p] == LinksAfter(t, p, d, p) && t'.m[g] == LinksAfter(t, p, d, g);
    assert a in t.m ==> t'.m[a] == LinksAfter(t, p, d, a);
    assert b in t.m ==> t'.m[b] == LinksAfter(t, p, d, b);
    assert c in t.m ==> t'.m[c] == LinksAfter(t, p, d, c);
    BalancedByKids(t', h, NoGap, z, d);
    BalancedByKids(t', h, NoGap, p, d);
  }

  /** z is an inner grandchild: rotating it with its parent makes the parent an outer one. */
  lemma InnerKeeps<T>(t: Tree<T>, t': Tree<T>, key: T -> int, h: map<T, nat>, z: T, p: T, g: T, d: bool)
    requires InsertState(t, key, h, z) && IsRed(t, p) && !IsRed(t, g) && Line(t, z, p, g, d, !d)
    requires !IsRed(t, t.m[p].Kid(d))
    requires CanRotate(t, key, p, d) && IsRotation(t, t', p, d) && Shape(t', key)
    ensures InsertState(t', key, h, p)
    ensures t'.m[p].parent == z && t'.m[z].parent == g && t'.m[z].Kid(d) == p && t'.m[g].Kid(d) == z && t'.m[z].red
        && !t'.m[g].red
  {
    assert BalancedAt(t, h, NoGap, z) && BalancedAt(t, h, NoGap, p) && RedAt(t, z, z, t.nil) && Linked(t, z);
    InnerTop(t, t', h, z, p, g, d);
    RepaintRotate(t, key, t, t', h, h, p, d, NoGap, NoGap);
    forall n | n in t'.m ensures RedAt(t', n, p, t.nil) {
      if n != p && n != z {
        assert RedAt(t, n, z, t.nil) && Linked(t, n) && Linked(t, z);
        RepaintRotateRed(t, t, t', p, d, z, p, t.nil, t.nil, n);
      }
    }
    assert t'.root in t.m && t'.m[t'.root] == LinksAfter(t, p, d, t'.root);
  }

  /** The condition of the loop. */
  ghost predicate MustFix<T>(t: Tree<T>, z: T) {
    z in t.m && z != t.root && IsRed(t, t.m[z].parent)
  }

  /** When the loop ends, painting the root black leaves a red-black tree. */
  lemma InsertDone<T>(t: Tree<T>, key: T -> int, h: map<T, nat>, z: T)
    requires InsertState(t, key, h, z) && !MustFix(t, z)
    ensures RedBlack(Painted(t, t.root, false), key, h)
  {
    var t' := Painted(t, t.root, false);
    PaintKeepsShape(t, key, t.root, false);
    forall n | n in t.m ensures BalancedAt(t', h, NoGap, n) && RedAt(t', n, t.nil, t.nil) {
      assert BalancedAt(t, h, NoGap, n) && RedAt(t, n, z, t.nil) && Linked(t, n) && Linked(t, z);
      RootIsNoKid(t, key, n);
      RootPaintedAt(t, h, z, n);
    }
  }

  lemma RootIsNoKid<T>(t: Tree<T>, key: T -> int, n: T)
    requires Shape(t, key) && n in t.m
    ensures t.m[n].left != t.root && t.m[n].right != t.root
  {
    if t.m[n].left != t.nil { Family(t, key, n, false); }
    if t.m[n].right != t.nil { Family(t, key, n, true); }
  }

  lemma RootPaintedAt<T>(t: Tree<T>, h: map<T, nat>, z: T, n: T)
    requires t.root in t.m && n in t.m && t.m[n].left != t.root && t.m[n].right != t.root && t.nil !in t.m
    requires z in t.m && (z == t.root || !IsRed(t, t.m[z].parent))
        && (z == t.m[n].left || z == t.m[n].right ==> t.m[z].parent == n)
    requires BalancedAt(t, h, NoGap, n) && RedAt(t, n, z, t.nil)
    ensures BalancedAt(Painted(t, t.root, false), h, NoGap, n)
    ensures RedAt(Painted(t, t.root, false), n, t.nil, t.nil)
  {
  }

  lemma PaintThree<T>(t: Tree<T>, key: T -> int, p: T, u: T, g: T)
    requires Shape(t, key) && p in t.m && u in t.m && g in t.m && p != g && u != g
    ensures var t' := Painted(Painted(Painted(t, p, false), u, false), g, true);
        Shape(t', key)
        && RedUncle(t, t', p, u, g)
  {
    PaintKeepsShape(t, key, p, false);
    PaintKeepsShape(Painted(t, p, false), key, u, false);
    PaintKeepsShape(Painted(Painted(t, p, false), u, false), key, g, true);
  }

  /** How far the loop still is from its end. */
  ghost function InsertMeasure<T>(t: Tree<T>, z: T): nat {
    if !MustFix(t, z) || |t.m.Keys| < |t.Desc(z)| then 0 else 1 + |t.m.Keys| - |t.Desc(z)|
  }

  lemma InsertProgress<T>(t: Tree<T>, t': Tree<T>, key: T -> int, z: T, p: T, g: T)
    requires Shape(t, key) && z in t.m && p in t.m && t.m[z].parent == p && t.m[p].parent == g && z != t.root
        && p != t.root && IsRed(t, p)
    requires t'.m.Keys == t.m.Keys && t'.desc == t.desc && t'.nil == t.nil
    ensures InsertMeasure(t', g) < InsertMeasure(t, z)
  {
    ParentSubtree(t, key, z, p);
    ParentSubtree(t, key, p, g);
  }

  /** The parts of the inner rotation that the outer one starts from. */
  lemma InnerLine<T>(t: Tree<T>, t': Tree<T>, key: T -> int, h: map<T, nat>, z: T, p: T, g: T, e: bool)
    requires InsertState(t', key, h, p) && p != t'.root
    requires z in t'.m && g in t'.m && t'.m[p].parent == z && t'.m[z].parent == g && t'.m[z].Kid(!e) == p
        && t'.m[g].Kid(!e) == z && t'.m[z].red && !t'.m[g].red
    ensures Line(t', p, z, g, e, e) && !IsRed(t', t'.m[z].Kid(e))
  {
    var p', g', d', e' := Grandparent(t', key, h, p);
  }

  lemma RedUncleStep<T>(t: Tree<T>, key: T -> int, h: map<T, nat>, z: T, p: T, u: T, g: T)
    requires InsertState(t, key, h, z) && z != t.root && IsRed(t, t.m[z].parent)
    requires p == t.m[z].parent && g == t.m[p].parent && g in t.m && u == t.m[g].Kid(p == t.m[g].left) && IsRed(t, u)
    ensures g in h
    ensures var t' := Painted(Painted(Painted(t, p, false), u, false), g, true);
            InsertState(t', key, h[g := h[g] + 1], g) && InsertMeasure(t', g) < InsertMeasure(t, z)
  {
    var _, _, d, e := Grandparent(t, key, h, z);
    RedUncleNodes(t, key, h, z, p, u, g);
    PaintThree(t, key, p, u, g);
    var t' := Painted(Painted(Painted(t, p, false), u, false), g, true);
    RedUncleKeeps(t, t', key, h, z, p, u, g);
    InsertProgress(t, t', key, z, p, g);
  }

  lemma RedUncleNodes<T>(t: Tree<T>, key: T -> int, h: map<T, nat>, z: T, p: T, u: T, g: T)
    requires InsertState(t, key, h, z) && p in t.m && g == t.m[p].parent && g in t.m && p in t.m && IsRed(t, u)
        && u == t.m[g].Kid(p == t.m[g].left)
    ensures p != g && u != g && p != t.root
  {
    assert Linked(t, p);
    Family(t, key, g, p == t.m[g].left);
    ParentSubtree(t, key, p, g);
  }

  lemma OuterStep<T>(t: Tree<T>, key: T -> int, h: map<T, nat>, z: T, p: T, g: T, e: bool)
    requires InsertState(t, key, h, z) && IsRed(t, p) && !IsRed(t, g) && Line(t, z, p, g, e, e)
    requires !IsRed(t, t.m[g].Kid(e)) && !IsRed(t, t.m[p].Kid(e))
    ensures var u := Swapped(t, p, g);
            && CanRotate(u, key, g, e) && Pivot(u, g, e)
            && InsertState(Rotated(u, g, e), key, h, z) && InsertMeasure(Rotated(u, g, e), z) == 0
  {
    PaintTwo(t, key, p, g);
    var u := Swapped(t, p, g);
    RotateKeepsShape(u, key, g, e);
    OuterKeeps(t, u, Rotated(u, g, e), key, h, z, p, g, e);
  }

  lemma InnerStep<T>(t: Tree<T>, key: T -> int, h: map<T, nat>, z: T, p: T, g: T, e: bool)
    requires InsertState(t, key, h, z) && IsRed(t, p) && !IsRed(t, g) && Line(t, z, p, g, !e, e)
    requires !IsRed(t, t.m[p].Kid(!e)) && !IsRed(t, t.m[g].Kid(e))
    ensures CanRotate(t, key, p, !e) && Pivot(t, p, !e)
    ensures var t' := Rotated(t, p, !e);
            && InsertState(t', key, h, p) && IsRed(t', z) && !IsRed(t', g)
            && Line(t', p, z, g, e, e) && !IsRed(t', t'.m[g].Kid(e)) && !IsRed(t', t'.m[z].Kid(e))
  {
    RotateKeepsShape(t, key, p, !e);
    var t' := Rotated(t, p, !e);
    InnerKeeps(t, t', key, h, z, p, g, !e);
    InnerLine(t, t', key, h, z, p, g, e);
    InnerUncle(t, t', z, p, g, e);
  }

  lemma InnerUncle<T>(t: Tree<T>, t': Tree<T>, z: T, p: T, g: T, e: bool)
    requires Line(t, z, p, g, !e, e) && Pivot(t, p, !e) && IsRotation(t, t', p, !e) && !IsRed(t, t.m[g].Kid(e))
    ensures !IsRed(t', t'.m[g].Kid(e))
  {
    assert t'.m[g] == LinksAfter(t, p, !e, g);
    var c := t.m[g].Kid(e);
    if c in t.m {
      assert t'.m[c] == LinksAfter(t, p, !e, c);
    }
  }

  /** The tree, the heights and the node that one turn of the loop leads to. */
  datatype Fix<T> = Fix(t: Tree<T>, h: map<T, nat>, z: T)

  /** One turn is possible at z, whose parent is p and whose grandparent is g. */
  ghost predicate CanFix<T>(t: Tree<T>, h: map<T, nat>, z: T, p: T, g: T) {
    && z in t.m && p in t.m && g in t.m && t.m[z].parent == p && t.m[p].parent == g && g in h
    && var e := p == t.m[g].left;
       && (forall d :: t.m[g].Kid(d) == t.nil || t.m[g].Kid(d) in t.m)
       && (IsRed(t, t.m[g].Kid(e)) || if z == t.m[p].Kid(e) then CanFixInner(t, z, p, g, e) else CanTurn(t, p, g, e))
  }

  ghost predicate CanFixInner<T>(t: Tree<T>, z: T, p: T, g: T, e: bool) {
    Pivot(t, p, !e) && t.m[p].Kid(e) == z && t.m[p].parent == g && CanTurn(Rotated(t, p, !e), z, g, e)
  }

  ghost function InsertNext<T>(t: Tree<T>, h: map<T, nat>, z: T, p: T, g: T): Fix<T>
    requires CanFix(t, h, z, p, g)
  {
    var e := p == t.m[g].left;
    var u := t.m[g].Kid(e);
    if IsRed(t, u) then Fix(Painted(Painted(Painted(t, p, false), u, false), g, true), h[g := h[g] + 1], g)
    else if z == t.m[p].Kid(e) then Fix(Turned(Rotated(t, p, !e), z, g, e), h, p)
    else Fix(Turned(t, p, g, e), h, z)
  }

  lemma InsertNextOuter<T>(t: Tree<T>, key: T -> int, h: map<T, nat>, z: T, p: T, g: T, e: bool)
    requires InsertState(t, key, h, z) && IsRed(t, p) && !IsRed(t, g) && Line(t, z, p, g, e, e)
    requires !IsRed(t, t.m[g].Kid(e)) && !IsRed(t, t.m[p].Kid(e))
    ensures CanTurn(t, p, g, e)
    ensures InsertState(Turned(t, p, g, e), key, h, z) && InsertMeasure(Turned(t, p, g, e), z) == 0
  {
    OuterStep(t, key, h, z, p, g, e);
  }

  lemma InsertNextInner<T>(t: Tree<T>, key: T -> int, h: map<T, nat>, z: T, p: T, g: T, e: bool)
    requires InsertState(t, key, h, z) && IsRed(t, p) && !IsRed(t, g) && Line(t, z, p, g, !e, e)
    requires !IsRed(t, t.m[g].Kid(e)) && !IsRed(t, t.m[p].Kid(!e))
    ensures CanFixInner(t, z, p, g, e)
    ensures var t' := Turned(Rotated(t, p, !e), z, g, e); InsertState(t', key, h, p) && InsertMeasure(t', p) == 0
  {
    InnerStep(t, key, h, z, p, g, e);
    InsertNextOuter(Rotated(t, p, !e), key, h, p, z, g, e);
  }

  /** The invariant holds and the loop is nearer to its end. */
  ghost predicate Nearer<T>(f: Fix<T>, key: T -> int, t: Tree<T>, z: T) {
    InsertState(f.t, key, f.h, f.z) && InsertMeasure(f.t, f.z) < InsertMeasure(t, z)
  }

  lemma NextRedUncleIs<T>(t: Tree<T>, h: map<T, nat>, z: T, p: T, u: T, g: T)
    requires CanFix(t, h, z, p, g) && u == t.m[g].Kid(p == t.m[g].left) && IsRed(t, u)
    ensures InsertNext(t, h, z, p, g)
        == Fix(Painted(Painted(Painted(t, p, false), u, false), g, true), h[g := h[g] + 1], g)
  {
  }

  lemma NextBlackUncleIs<T>(t: Tree<T>, h: map<T, nat>, z: T, p: T, u: T, g: T)
    requires CanFix(t, h, z, p, g) && u == t.m[g].Kid(p == t.m[g].left) && !IsRed(t, u)
    ensures var e := p == t.m[g].left;
            InsertNext(t, h, z, p, g)
                == (if z == t.m[p].Kid(e) then Fix(Turned(Rotated(t, p, !e), z, g, e), h, p)
                else Fix(Turned(t, p, g, e), h, z))
  {
  }

  lemma NextRedUncleCan<T>(t: Tree<T>, key: T -> int, h: map<T, nat>, z: T, p: T, u: T, g: T)
    requires InsertState(t, key, h, z) && IsRed(t, p) && g in t.m
    requires p == t.m[z].parent && g == t.m[p].parent && u == t.m[g].Kid(p == t.m[g].left) && IsRed(t, u)
    ensures CanFix(t, h, z, p, g)
  {
    assert Linked(t, g);
  }

  lemma NextRedUncle<T>(t: Tree<T>, key: T -> int, h: map<T, nat>, z: T, p: T, u: T, g: T)
    requires InsertState(t, key, h, z) && z != t.root && IsRed(t, p) && g in t.m
    requires p == t.m[z].parent && g == t.m[p].parent && u == t.m[g].Kid(p == t.m[g].left) && IsRed(t, u)
    ensures CanFix(t, h, z, p, g) && Nearer(InsertNext(t, h, z, p, g), key, t, z)
  {
    NextRedUncleCan(t, key, h, z, p, u, g);
    RedUncleStep(t, key, h, z, p, u, g);
    NextRedUncleIs(t, h, z, p, u, g);
  }

  lemma NextInner<T>(t: Tree<T>, key: T -> int, h: map<T, nat>, z: T, p: T, u: T, g: T, e: bool)
    requires InsertState(t, key, h, z) && z != t.root && IsRed(t, p) && !IsRed(t, g) && Line(t, z, p, g, !e, e)
    requires e == (p == t.m[g].left) && u == t.m[g].Kid(e) && !IsRed(t, u) && !IsRed(t, t.m[p].Kid(!e)) && g in h
        && (u == t.nil || u in t.m)
    requires InsertMeasure(t, z) > 0
    ensures CanFix(t, h, z, p, g) && Nearer(InsertNext(t, h, z, p, g), key, t, z)
  {
    InsertNextInner(t, key, h, z, p, g, e);
  }

  lemma NextOuter<T>(t: Tree<T>, key: T -> int, h: map<T, nat>, z: T, p: T, u: T, g: T, e: bool)
    requires InsertState(t, key, h, z) && z != t.root && IsRed(t, p) && !IsRed(t, g) && Line(t, z, p, g, e, e)
    requires e == (p == t.m[g].left) && u == t.m[g].Kid(e) && !IsRed(t, u) && !IsRed(t, t.m[p].Kid(e)) && g in h
        && (u == t.nil || u in t.m)
    requires InsertMeasure(t, z) > 0
    ensures CanFix(t, h, z, p, g) && Nearer(InsertNext(t, h, z, p, g), key, t, z)
  {
    InsertNextOuter(t, key, h, z, p, g, e);
  }

  /** One turn of the post-insert loop keeps its invariant and makes progress. */
  lemma InsertNextKeeps<T>(t: Tree<T>, key: T -> int, h: map<T, nat>, z: T, p: T, g: T)
    requires InsertState(t, key, h, z) && z != t.root && IsRed(t, t.m[z].parent)
    requires p == t.m[z].parent && g == t.m[p].parent
    ensures CanFix(t, h, z, p, g) && Nearer(InsertNext(t, h, z, p, g), key, t, z)
  {
    var _, _, d, e := Grandparent(t, key, h, z);
    InsertNextPlace(t, key, h, z, p, g);
    var u := t.m[g].Kid(e);
    if IsRed(t, u) {
      NextRedUncle(t, key, h, z, p, u, g);
    } else if d == e {
      NextOuter(t, key, h, z, p, u, g, e);
    } else {
      NextInner(t, key, h, z, p, u, g, e);
    }
  }

  lemma InsertNextPlace<T>(t: Tree<T>, key: T -> int, h: map<T, nat>, z: T, p: T, g: T)
    requires InsertState(t, key, h, z) && p in t.m && g in t.m && g == t.m[p].parent && p == t.m[z].parent
        && z != t.root && IsRed(t, p)
    ensures g in h && InsertMeasure(t, z) > 0
    ensures forall e :: t.m[g].Kid(e) == t.nil || t.m[g].Kid(e) in t.m
  {
    assert Linked(t, g) && Linked(t, z);
    InsertNextPositive(t, key, z);
  }

  lemma InsertNextPositive<T>(t: Tree<T>, key: T -> int, z: T)
    requires Shape(t, key) && z in t.m && z != t.root && IsRed(t, t.m[z].parent)
    ensures InsertMeasure(t, z) > 0
  {
    ParentSubtree(t, key, z, t.m[z].parent);
  }
}
