/** The links of cc_omap's tree as values: which node is whose child, and the search order. */
module TreeShape {
  import opened Pigeonhole

  /** The links and the colour of one node. */
  datatype Links<T> = Links(red: bool, parent: T, left: T, right: T) {
    function Kid(d: bool): T {
      if d then right else left
    }

    function WithKid(d: bool, k: T): Links<T> {
      if d then this.(right := k) else this.(left := k)
    }
  }

  /** The linked nodes, the sentinel `nil`, the root, and the set of nodes of each subtree. */
  datatype Tree<T> = Tree(m: map<T, Links<T>>, nil: T, root: T, desc: map<T, set<T>>) {
    ghost function Desc(c: T): set<T> {
      if c != nil && c in desc then desc[c] else {}
    }
  }

  ghost predicate ChildOk<T>(t: Tree<T>, n: T, c: T) {
    c == t.nil || (c in t.m && t.m[c].parent == n)
  }

  ghost predicate ParentOk<T>(t: Tree<T>, n: T)
    requires n in t.m
  {
    var p := t.m[n].parent;
    if n == t.root then p == t.nil else p in t.m && (t.m[p].left == n || t.m[p].right == n)
  }

  /** Children and parents agree. */
  ghost predicate Linked<T>(t: Tree<T>, n: T)
    requires n in t.m
  {
    ChildOk(t, n, t.m[n].left) && ChildOk(t, n, t.m[n].right) && ParentOk(t, n)
  }

  /** The subtree is the node and its children's subtrees, which are disjoint and on their sides of the key. */
  ghost predicate Ordered<T>(t: Tree<T>, key: T -> int, n: T)
    requires n in t.m
  {
    var l, r := t.Desc(t.m[n].left), t.Desc(t.m[n].right);
    && n in t.desc && t.desc[n] == {n} + l + r && t.desc[n] <= t.m.Keys
    && n !in l && n !in r && l !! r
    && (forall x :: x in l ==> key(x) < key(n))
    && (forall x :: x in r ==> key(n) < key(x))
  }

  ghost predicate Shape<T>(t: Tree<T>, key: T -> int) {
    && t.nil !in t.m && t.desc.Keys == t.m.Keys
    && (if t.root == t.nil then t.m.Keys == {} else t.root in t.m && t.desc[t.root] == t.m.Keys)
    && (forall n {:trigger Linked(t, n)} :: n in t.m ==> Linked(t, n))
    && (forall n {:trigger Ordered(t, key, n)} :: n in t.m ==> Ordered(t, key, n))
  }

  /** First part of a rotation: x takes the inner child b of y, and y the parent p of x. */
  ghost function HandOver<T>(m: map<T, Links<T>>, nil: T, x: T, d: bool, y: T, b: T, p: T): map<T, Links<T>>
    requires x in m && y in m && (b == nil || b in m)
  {
    var m1 := m[x := m[x].WithKid(!d, b)];
    var m2 := if b == nil then m1 else m1[b := m1[b].(parent := x)];
    m2[y := m2[y].(parent := p)]
  }

  /** Second part: p, if there is one, takes y for x. */
  ghost function Replace<T>(m: map<T, Links<T>>, nil: T, x: T, y: T, p: T): map<T, Links<T>>
    requires p == nil || p in m
  {
    if p == nil then m else m[p := m[p].WithKid(x == m[p].right, y)]
  }

  /** Third part: y takes x for its child. */
  ghost function Adopt<T>(m: map<T, Links<T>>, x: T, d: bool, y: T): map<T, Links<T>>
    requires x in m && y in m
  {
    var m1 := m[y := m[y].WithKid(d, x)];
    m1[x := m1[x].(parent := y)]
  }

  /** The tree after cc_omap_rotate: the child of x on the side !d takes the place of x. */
  ghost function Rotated<T>(t: Tree<T>, x: T, d: bool): Tree<T>
    requires x in t.m && t.m[x].Kid(!d) in t.m
    requires var b := t.m[t.m[x].Kid(!d)].Kid(d); b == t.nil || b in t.m
    requires t.m[x].parent == t.nil || t.m[x].parent in t.m
    requires x in t.desc && t.m[x].Kid(!d) in t.desc
  {
    var y := t.m[x].Kid(!d);
    var b, p := t.m[y].Kid(d), t.m[x].parent;
    Tree(Adopt(Replace(HandOver(t.m, t.nil, x, d, y, b, p), t.nil, x, y, p), x, d, y), t.nil,
         if p == t.nil then y else t.root, t.desc[x := t.desc[x] - t.desc[y] + t.Desc(b)][y := t.desc[x]])
  }

  /** A child is a different node from its parent, its grandparent and its sibling. */
  lemma Family<T>(t: Tree<T>, key: T -> int, n: T, d: bool)
    requires Shape(t, key) && n in t.m && t.m[n].Kid(d) != t.nil
    ensures var k := t.m[n].Kid(d);
            && k in t.m && t.m[k].parent == n && k != n && k != t.m[n].Kid(!d) && k != t.root
            && t.m[n].parent != k && (t.m[n].Kid(!d) != t.nil ==> t.m[n].parent != t.m[n].Kid(!d))
  {
    var k := t.m[n].Kid(d);
    assert Linked(t, n) && Ordered(t, key, n);
    InSubtree(t, key, k);
    assert Linked(t, k);
    if t.m[n].Kid(!d) != t.nil {
      InSubtree(t, key, t.m[n].Kid(!d));
    }
    var p := t.m[n].parent;
    if p != t.nil {
      assert Linked(t, p) && Ordered(t, key, p);
      InSubtree(t, key, n);
    }
  }

  /** A rotation is possible at x towards d. */
  ghost predicate CanRotate<T>(t: Tree<T>, key: T -> int, x: T, d: bool) {
    Shape(t, key) && x in t.m && t.m[x].Kid(!d) != t.nil
  }

  lemma InSubtree<T>(t: Tree<T>, key: T -> int, n: T)
    requires Shape(t, key) && n in t.m
    ensures n in t.desc && n in t.desc[n] && t.nil !in t.desc[n]
    ensures t.Desc(t.m[n].left) + t.Desc(t.m[n].right) <= t.desc[n]
    ensures n !in t.Desc(t.m[n].left) && n !in t.Desc(t.m[n].right)
  {
    assert Ordered(t, key, n);
  }

  /** The nodes that a rotation at x towards d relinks exist and are different ones. */
  ghost predicate Pivot<T>(t: Tree<T>, x: T, d: bool) {
    && x in t.m && x in t.desc && t.nil !in t.m
    && var y := t.m[x].Kid(!d);
       && y in t.m && y != x && y in t.desc && t.m[y].parent == x
       && var a, b, c, p := t.m[x].Kid(d), t.m[y].Kid(d), t.m[y].Kid(!d), t.m[x].parent;
          && (b == t.nil || (b in t.m && b != x && b != y && t.m[b].parent == y))
          && (a == t.nil || (a in t.m && a != x && a != y && a != b && a != c && t.m[a].parent == x))
          && (c == t.nil || (c in t.m && c != x && c != y && c != b && t.m[c].parent == y))
          && (p == t.nil || (p in t.m && p != x && p != y && p != b && p != a && p != c
              && (t.m[p].left == x <==> t.m[p].right != x)))
          && (x == t.root <==> p == t.nil)
  }

  lemma RotatePivot<T>(t: Tree<T>, key: T -> int, x: T, d: bool)
    requires CanRotate(t, key, x, d)
    ensures Pivot(t, x, d)
  {
    var y := t.m[x].Kid(!d);
    assert Linked(t, x) && Ordered(t, key, x);
    assert Linked(t, y) && Ordered(t, key, y);
    InSubtree(t, key, x);
    InSubtree(t, key, y);
    var p := t.m[x].parent;
    if p != t.nil {
      assert Ordered(t, key, p);
      InSubtree(t, key, p);
    }
    forall k | k == t.m[x].Kid(d) || k == t.m[y].Kid(d) || k == t.m[y].Kid(!d) ensures k != t.nil
        ==> k in t.m && k in t.Desc(k) {
      if k != t.nil {
        InSubtree(t, key, k);
      }
    }
  }

  /** The links of a node after a rotation. */
  ghost function LinksAfter<T>(t: Tree<T>, x: T, d: bool, n: T): Links<T>
    requires Pivot(t, x, d) && n in t.m
  {
    var y, l := t.m[x].Kid(!d), t.m[n];
    var b, p := t.m[y].Kid(d), t.m[x].parent;
    if n == x then l.WithKid(!d, b).(parent := y)
    else if n == y then l.WithKid(d, x).(parent := p)
    else if n == b then l.(parent := x)
    else if n == p then l.WithKid(x == l.right, y)
    else l
  }

  lemma RotatedLinks<T>(t: Tree<T>, x: T, d: bool, n: T)
    requires Pivot(t, x, d) && n in t.m
    ensures Rotated(t, x, d).m.Keys == t.m.Keys
    ensures Rotated(t, x, d).m[n] == LinksAfter(t, x, d, n)
  {
  }

  lemma RotateLinked<T>(t: Tree<T>, x: T, d: bool, n: T)
    requires Pivot(t, x, d) && n in t.m && Linked(t, n)
    ensures n in Rotated(t, x, d).m && Linked(Rotated(t, x, d), n)
  {
    var y := t.m[x].Kid(!d);
    RotatedLinks(t, x, d, n);
    if t.m[n].left != t.nil { RotatedLinks(t, x, d, t.m[n].left); }
    if t.m[n].right != t.nil { RotatedLinks(t, x, d, t.m[n].right); }
    if t.m[n].parent != t.nil { RotatedLinks(t, x, d, t.m[n].parent); }
    if n == x || n == y {
      RotatedLinks(t, x, d, x);
      RotatedLinks(t, x, d, y);
      if t.m[y].Kid(d) != t.nil { RotatedLinks(t, x, d, t.m[y].Kid(d)); }
      if t.m[x].parent != t.nil { RotatedLinks(t, x, d, t.m[x].parent); }
    }
    if n == t.m[y].Kid(d) {
      RotatedLinks(t, x, d, x);
    }
    if n == t.m[x].parent {
      RotatedLinks(t, x, d, y);
    }
  }

  lemma RotateOrderedX<T>(t: Tree<T>, key: T -> int, x: T, d: bool)
    requires Pivot(t, x, d) && Ordered(t, key, x) && Ordered(t, key, t.m[x].Kid(!d))
    ensures Rotated(t, x, d).m.Keys == t.m.Keys && Ordered(Rotated(t, x, d), key, x)
    ensures Rotated(t, x, d).desc[x] == {x} + t.Desc(t.m[x].Kid(d)) + t.Desc(t.m[t.m[x].Kid(!d)].Kid(d))
  {
    RotatedLinks(t, x, d, x);
    var y := t.m[x].Kid(!d);
    assert t.Desc(y) == t.desc[y];
  }

  lemma RotateOrderedY<T>(t: Tree<T>, key: T -> int, x: T, d: bool)
    requires Pivot(t, x, d) && Ordered(t, key, x) && Ordered(t, key, t.m[x].Kid(!d))
    ensures Rotated(t, x, d).m.Keys == t.m.Keys && Ordered(Rotated(t, x, d), key, t.m[x].Kid(!d))
  {
    var y := t.m[x].Kid(!d);
    RotatedLinks(t, x, d, y);
    RotateOrderedX(t, key, x, d);
    assert t.Desc(y) == t.desc[y];
  }

  lemma RotateOrderedElse<T>(t: Tree<T>, key: T -> int, x: T, d: bool, n: T)
    requires Pivot(t, x, d) && n in t.m && n != x && n != t.m[x].Kid(!d)
    requires Ordered(t, key, n) && Linked(t, n)
    ensures Rotated(t, x, d).m.Keys == t.m.Keys && Ordered(Rotated(t, x, d), key, n)
  {
    RotatedLinks(t, x, d, n);
  }

  lemma RotateAt<T>(t: Tree<T>, key: T -> int, x: T, d: bool, n: T)
    requires CanRotate(t, key, x, d) && Pivot(t, x, d) && n in t.m
    ensures Rotated(t, x, d).m.Keys == t.m.Keys && Rotated(t, x, d).m[n] == LinksAfter(t, x, d, n)
    ensures Linked(Rotated(t, x, d), n)
    ensures Ordered(Rotated(t, x, d), key, n)
  {
    RotatedLinks(t, x, d, n);
    assert Linked(t, n);
    RotateLinked(t, x, d, n);
    assert Ordered(t, key, x) && Ordered(t, key, t.m[x].Kid(!d)) && Ordered(t, key, n);
    if n == x {
      RotateOrderedX(t, key, x, d);
    } else if n == t.m[x].Kid(!d) {
      RotateOrderedY(t, key, x, d);
    } else {
      RotateOrderedElse(t, key, x, d, n);
    }
  }

  lemma RotateRoot<T>(t: Tree<T>, key: T -> int, x: T, d: bool)
    requires CanRotate(t, key, x, d) && Pivot(t, x, d)
    ensures var t' := Rotated(t, x, d);
            t'.root in t'.m && t'.root != t'.nil && t'.desc.Keys == t'.m.Keys == t.m.Keys
                && t'.desc[t'.root] == t.m.Keys
  {
    RotatedLinks(t, x, d, x);
    assert Linked(t, x) && Ordered(t, key, x);
  }

  /** t' is t after a rotation at x towards d. */
  ghost predicate IsRotation<T>(t: Tree<T>, t': Tree<T>, x: T, d: bool) {
    && Pivot(t, x, d)
    && t'.nil == t.nil && t'.m.Keys == t.m.Keys
    && t'.root == (if t.m[x].parent == t.nil then t.m[x].Kid(!d) else t.root)
    && forall n :: n in t.m ==> t'.m[n] == LinksAfter(t, x, d, n)
  }

  /** A rotation keeps the search tree. */
  lemma RotateKeepsShape<T>(t: Tree<T>, key: T -> int, x: T, d: bool)
    requires CanRotate(t, key, x, d)
    ensures Pivot(t, x, d) && Shape(Rotated(t, x, d), key)
    ensures IsRotation(t, Rotated(t, x, d), x, d)
  {
    RotatePivot(t, key, x, d);
    RotateRoot(t, key, x, d);
    var t' := Rotated(t, x, d);
    forall n | n in t.m ensures t'.m[n] == LinksAfter(t, x, d, n) && Linked(t', n) && Ordered(t', key, n) {
      RotateAt(t, key, x, d, n);
    }
  }

  /** Above the two rotated nodes only the child x is replaced. */
  lemma KidsAfter<T>(t: Tree<T>, t': Tree<T>, x: T, d: bool, n: T)
    requires IsRotation(t, t', x, d) && n in t.m && n != x && n != t.m[x].Kid(!d) && Linked(t, n)
    ensures t'.m[n].left == if t.m[n].left == x then t.m[x].Kid(!d) else t.m[n].left
    ensures t'.m[n].right == if t.m[n].right == x then t.m[x].Kid(!d) else t.m[n].right
    ensures t.m[n].left != t.m[x].Kid(!d) && t.m[n].right != t.m[x].Kid(!d)
  {
  }

  /** A parent's subtree is larger than its child's. */
  lemma ParentSubtree<T>(t: Tree<T>, key: T -> int, n: T, p: T)
    requires Shape(t, key) && n in t.m && p == t.m[n].parent && n != t.root
    ensures p in t.m && Ordered(t, key, p) && (n == t.m[p].left || n == t.m[p].right) && n != t.nil && n in t.desc[n]
    ensures t.desc[n] <= t.desc[p] && n in t.desc[p] && |t.desc[n]| < |t.desc[p]| <= |t.m.Keys|
  {
    InSubtree(t, key, n);
    assert Linked(t, n);
    assert Ordered(t, key, p);
    SubsetSize(t.desc[n] + {p}, t.desc[p]);
    SubsetSize(t.desc[p], t.m.Keys);
  }
}
