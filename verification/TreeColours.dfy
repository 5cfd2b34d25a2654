/** The colours of cc_omap's tree: what each step of the two fix-up loops does to the black heights. */
module TreeColours {
  import opened TreeShape

  /** The edge below which a path is one black node short, if there is one. */
  datatype Gap<T> = NoGap | Gap(p: T, d: bool)

  ghost function Short<T>(gap: Gap<T>, n: T, d: bool): nat {
    if gap == Gap(n, d) then 1 else 0
  }

  ghost predicate IsRed<T>(t: Tree<T>, c: T) {
    c in t.m && t.m[c].red
  }

  /** The black nodes on a path from c downwards; h[n] counts them below n. */
  ghost function Black<T>(t: Tree<T>, h: map<T, nat>, c: T): nat {
    if c in t.m && c in h then h[c] + (if t.m[c].red then 0 else 1) else 0
  }

  ghost predicate BalancedAt<T>(t: Tree<T>, h: map<T, nat>, gap: Gap<T>, n: T)
    requires n in t.m
  {
    && n in h
    && Black(t, h, t.m[n].left) + Short(gap, n, false) == h[n]
    && Black(t, h, t.m[n].right) + Short(gap, n, true) == h[n]
  }

  lemma BalancedByKids<T>(t: Tree<T>, h: map<T, nat>, gap: Gap<T>, n: T, d: bool)
    requires n in t.m && n in h
    requires Black(t, h, t.m[n].Kid(d)) + Short(gap, n, d) == h[n]
    requires Black(t, h, t.m[n].Kid(!d)) + Short(gap, n, !d) == h[n]
    ensures BalancedAt(t, h, gap, n)
  {
  }

  lemma KidsBalanced<T>(t: Tree<T>, h: map<T, nat>, gap: Gap<T>, n: T, d: bool)
    requires n in t.m && BalancedAt(t, h, gap, n)
    ensures n in h && Black(t, h, t.m[n].Kid(d)) + Short(gap, n, d) == h[n]
    ensures Black(t, h, t.m[n].Kid(!d)) + Short(gap, n, !d) == h[n]
  {
  }

  /** Every path below a node has the same number of black nodes, the gap counted in. */
  ghost predicate Balanced<T>(t: Tree<T>, h: map<T, nat>, gap: Gap<T>) {
    h.Keys == t.m.Keys && forall n {:trigger BalancedAt(t, h, gap, n)} :: n in t.m ==> BalancedAt(t, h, gap, n)
  }

  /** No red node has a red child, except that `up` may be such a child and `down` may have one. */
  ghost predicate RedAt<T>(t: Tree<T>, n: T, up: T, down: T)
    requires n in t.m
  {
    t.m[n].red && n != down ==>
      && (IsRed(t, t.m[n].left) ==> t.m[n].left == up)
      && (IsRed(t, t.m[n].right) ==> t.m[n].right == up)
  }

  ghost predicate NoRedRed<T>(t: Tree<T>, up: T, down: T) {
    forall n {:trigger RedAt(t, n, up, down)} :: n in t.m ==> RedAt(t, n, up, down)
  }

  ghost predicate RedBlack<T>(t: Tree<T>, key: T -> int, h: map<T, nat>) {
    Shape(t, key) && Balanced(t, h, NoGap) && NoRedRed(t, t.nil, t.nil) && !IsRed(t, t.root)
  }

  ghost function Painted<T>(t: Tree<T>, n: T, red: bool): Tree<T>
    requires n in t.m
  {
    t.(m := t.m[n := t.m[n].(red := red)])
  }

  /** The same links, with other colours for some nodes. */
  ghost predicate SameLinks<T>(t: Tree<T>, u: Tree<T>) {
    && u.nil == t.nil && u.root == t.root && u.desc == t.desc && u.m.Keys == t.m.Keys
    && forall n :: n in t.m ==> u.m[n] == t.m[n].(red := u.m[n].red)
  }

  lemma PaintAt<T>(t: Tree<T>, key: T -> int, n: T, red: bool, x: T)
    requires n in t.m && x in t.m && Linked(t, x) && Ordered(t, key, x)
    ensures x in Painted(t, n, red).m && Linked(Painted(t, n, red), x) && Ordered(Painted(t, n, red), key, x)
  {
  }

  lemma PaintKeepsShape<T>(t: Tree<T>, key: T -> int, n: T, red: bool)
    requires Shape(t, key) && n in t.m
    ensures Shape(Painted(t, n, red), key)
    ensures SameLinks(t, Painted(t, n, red))
  {
    var t' := Painted(t, n, red);
    forall x | x in t.m ensures Linked(t', x) && Ordered(t', key, x) {
      assert Linked(t, x) && Ordered(t, key, x);
      PaintAt(t, key, n, red, x);
    }
    assert t'.m.Keys == t.m.Keys;
  }

  /** Outside the two rotated nodes the heights fit, if x is taken to count v. */
  ghost predicate FitsAt<T>(t: Tree<T>, h: map<T, nat>, gap: Gap<T>, n: T, x: T, v: nat)
    requires n in t.m
  {
    && n in h
    && (if t.m[n].left == x then v else Black(t, h, t.m[n].left)) + Short(gap, n, false) == h[n]
    && (if t.m[n].right == x then v else Black(t, h, t.m[n].right)) + Short(gap, n, true) == h[n]
  }

  /** Only the heights of x and y change. */
  ghost predicate SameHeightsBut<T>(h: map<T, nat>, h': map<T, nat>, x: T, y: T) {
    h'.Keys == h.Keys && forall k :: k in h && k != x && k != y ==> h'[k] == h[k]
  }

  lemma BlackAfter<T>(t: Tree<T>, t': Tree<T>, h: map<T, nat>, h': map<T, nat>, x: T, d: bool, c: T)
    requires IsRotation(t, t', x, d) && h.Keys == t.m.Keys && SameHeightsBut(h, h', x, t.m[x].Kid(!d))
    requires c != x && c != t.m[x].Kid(!d)
    ensures Black(t', h', c) == Black(t, h, c)
  {
  }

  /** A rotation keeps the heights outside the rotated nodes if the new top counts what the old top did. */
  lemma RotateFits<T>(t: Tree<T>, t': Tree<T>, h: map<T, nat>, h': map<T, nat>, x: T, d: bool, gap: Gap<T>, n: T)
    requires IsRotation(t, t', x, d) && h.Keys == t.m.Keys && SameHeightsBut(h, h', x, t.m[x].Kid(!d))
    requires n in t.m && n != x && n != t.m[x].Kid(!d) && Linked(t, n)
    requires FitsAt(t, h, gap, n, x, Black(t', h', t.m[x].Kid(!d)))
    ensures BalancedAt(t', h', gap, n)
  {
    KidsAfter(t, t', x, d, n);
    if t.m[n].left != x { BlackAfter(t, t', h, h', x, d, t.m[n].left); }
    if t.m[n].right != x { BlackAfter(t, t', h, h', x, d, t.m[n].right); }
  }

  /** Only x, the child that will take its place, and that child's outer child have changed colour, the last
      from red to black at most. */
  ghost predicate PaintedAround<T>(t: Tree<T>, u: Tree<T>, x: T, d: bool)
    requires x in t.m && t.m[x].Kid(!d) in t.m
  {
    var y := t.m[x].Kid(!d);
    var c := t.m[y].Kid(!d);
    && SameLinks(t, u)
    && (forall n :: n in t.m && n != x && n != y && n != c ==> u.m[n].red == t.m[n].red)
    && (IsRed(u, c) ==> IsRed(t, c))
  }

  lemma RepaintFits<T>(t: Tree<T>, u: Tree<T>, h: map<T, nat>, x: T, d: bool, gap: Gap<T>, gap': Gap<T>, n: T)
    requires x in t.m && t.m[x].Kid(!d) in t.m && PaintedAround(t, u, x, d)
    requires n in t.m && n != x && n != t.m[x].Kid(!d) && Linked(t, n) && Linked(t, x) && Linked(t, t.m[x].Kid(!d))
        && t.nil !in t.m
    requires BalancedAt(t, h, gap, n)
    requires Short(gap', n, false) == Short(gap, n, false) && Short(gap', n, true) == Short(gap, n, true)
    ensures FitsAt(u, h, gap', n, x, Black(t, h, x))
    ensures Linked(u, n)
  {
    assert forall k :: k in t.m ==> u.m[k] == t.m[k].(red := u.m[k].red);
  }

  lemma RepaintRotateAt<T>(t: Tree<T>, key: T -> int, u: Tree<T>, t': Tree<T>, h: map<T, nat>, h': map<T, nat>, x: T,
      d: bool, gap: Gap<T>, gap': Gap<T>, n: T)
    requires Pivot(t, x, d) && Shape(t, key) && Balanced(t, h, gap)
    requires PaintedAround(t, u, x, d) && IsRotation(u, t', x, d)
    requires SameHeightsBut(h, h', x, t.m[x].Kid(!d))
    requires gap' == gap || (gap' == NoGap && gap.p == x)
    requires Black(t', h', t.m[x].Kid(!d)) == Black(t, h, x)
    requires n in t.m && n != x && n != t.m[x].Kid(!d)
    ensures BalancedAt(t', h', gap', n)
  {
    assert Linked(t, n) && Linked(t, x) && Linked(t, t.m[x].Kid(!d)) && BalancedAt(t, h, gap, n);
    RepaintFits(t, u, h, x, d, gap, gap', n);
    RotateFits(u, t', h, h', x, d, gap', n);
  }

  /** Recolouring around x and rotating there keeps the balance if it holds at the two rotated nodes and the
      new top counts what the old one did. */
  lemma RepaintRotate<T>(t: Tree<T>, key: T -> int, u: Tree<T>, t': Tree<T>, h: map<T, nat>, h': map<T, nat>, x: T,
      d: bool, gap: Gap<T>, gap': Gap<T>)
    requires Pivot(t, x, d) && Shape(t, key) && Balanced(t, h, gap)
    requires PaintedAround(t, u, x, d) && IsRotation(u, t', x, d)
    requires SameHeightsBut(h, h', x, t.m[x].Kid(!d))
    requires gap' == gap || (gap' == NoGap && gap.p == x)
    requires Black(t', h', t.m[x].Kid(!d)) == Black(t, h, x)
    requires BalancedAt(t', h', gap', x) && BalancedAt(t', h', gap', t.m[x].Kid(!d))
    ensures Balanced(t', h', gap')
  {
    forall n | n in t'.m ensures BalancedAt(t', h', gap', n) {
      if n != x && n != t.m[x].Kid(!d) {
        RepaintRotateAt(t, key, u, t', h, h', x, d, gap, gap', n);
      }
    }
  }

  lemma RepaintRotateRed<T>(t: Tree<T>, u: Tree<T>, t': Tree<T>, x: T, d: bool, up: T, up': T, down: T, down': T, n: T)
    requires Pivot(t, x, d) && PaintedAround(t, u, x, d) && IsRotation(u, t', x, d)
    requires n in t.m && n != x && n != t.m[x].Kid(!d) && Linked(t, n) && Linked(t, t.m[x].Kid(!d)) && t.nil !in t.m
    requires n == t.m[x].parent && t.m[n].red && n != down' ==> !IsRed(t', t.m[x].Kid(!d)) || t.m[x].Kid(!d) == up'
    requires (t.m[n].left == up || t.m[n].right == up) && up in t.m && up != x ==> up' == up
    requires n == down && t.m[n].red ==> n == down'
    requires RedAt(t, n, up, down)
    ensures RedAt(t', n, up', down')
  {
    assert u.m[n] == t.m[n].(red := u.m[n].red);
    assert Linked(u, n);
    KidsAfter(u, t', x, d, n);
    ColourAfter(t, u, t', x, d, n);
    if t.m[n].left != x { ColourAfter(t, u, t', x, d, t.m[n].left); }
    if t.m[n].right != x { ColourAfter(t, u, t', x, d, t.m[n].right); }
  }

  lemma ColourAfter<T>(t: Tree<T>, u: Tree<T>, t': Tree<T>, x: T, d: bool, k: T)
    requires Pivot(t, x, d) && PaintedAround(t, u, x, d) && IsRotation(u, t', x, d)
    requires k != x && k != t.m[x].Kid(!d)
    ensures IsRed(t', k) ==> IsRed(t, k)
    ensures k != t.m[t.m[x].Kid(!d)].Kid(!d) ==> (IsRed(t', k) <==> IsRed(t, k))
  {
  }

  /** One node becomes black and another red. */
  ghost predicate Recoloured<T>(t: Tree<T>, u: Tree<T>, black: T, red: T) {
    && SameLinks(t, u)
    && forall n :: n in t.m ==> u.m[n].red == (if n == black then false else if n == red then true else t.m[n].red)
  }

  ghost function Swapped<T>(t: Tree<T>, p: T, g: T): Tree<T>
    requires p in t.m && g in t.m
  {
    Painted(Painted(t, p, false), g, true)
  }

  ghost predicate CanTurn<T>(t: Tree<T>, p: T, g: T, e: bool) {
    p in t.m && g in t.m && Pivot(Swapped(t, p, g), g, e)
  }

  ghost function Turned<T>(t: Tree<T>, p: T, g: T, e: bool): Tree<T>
    requires CanTurn(t, p, g, e)
  {
    Rotated(Swapped(t, p, g), g, e)
  }

  lemma PaintTwo<T>(t: Tree<T>, key: T -> int, p: T, g: T)
    requires Shape(t, key) && p in t.m && g in t.m && p != g
    ensures var u := Swapped(t, p, g); Shape(u, key) && Recoloured(t, u, p, g)
  {
    PaintKeepsShape(t, key, p, false);
    PaintKeepsShape(Painted(t, p, false), key, g, true);
  }
}
