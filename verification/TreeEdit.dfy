/** The edits of cc_omap that change which nodes are in the tree, and the searches that prepare them. */
module TreeEdit {
  import opened Pigeonhole
  import opened TreeShape
  import opened TreeColours
  import opened TreeErase
  import opened TreeInsert

  /** A node's subtree lies within that of each of its ancestors. */
  lemma {:induction false} Nested<T>(t: Tree<T>, key: T -> int, n: T, x: T)
    requires Shape(t, key) && n in t.m && x in t.desc[n]
    ensures x in t.m && t.desc[x] <= t.desc[n]
    ensures x != n ==> t.m[x].parent in t.desc[n]
    decreases |t.desc[n]|
  {
    assert Ordered(t, key, n) && Linked(t, n);
    if x != n {
      var k := if x in t.Desc(t.m[n].left) then t.m[n].left else t.m[n].right;
      SubsetSize(t.desc[k] + {n}, t.desc[n]);
      Nested(t, key, k, x);
    }
  }

  lemma RootNotBelow<T>(t: Tree<T>, key: T -> int, a: T)
    requires Shape(t, key) && a in t.m
    ensures t.root !in t.Desc(t.m[a].left) && t.root !in t.Desc(t.m[a].right)
  {
    assert Ordered(t, key, a);
    forall k | k == t.m[a].left || k == t.m[a].right ensures t.root !in t.Desc(k) {
      if t.root in t.Desc(k) {
        Nested(t, key, k, t.root);
      }
    }
  }

  /** A key sought below c lies on c's side of every ancestor of c. */
  ghost predicate OnPath<T>(t: Tree<T>, key: T -> int, k: int, c: T) {
    forall a {:trigger OnSide(t, key, k, c, a)} :: a in t.m ==> OnSide(t, key, k, c, a)
  }

  ghost predicate OnSide<T>(t: Tree<T>, key: T -> int, k: int, c: T, a: T)
    requires a in t.m
  {
    (c in t.Desc(t.m[a].left) ==> k < key(a)) && (c in t.Desc(t.m[a].right) ==> key(a) < k)
  }

  /** Every node with the key is below c. */
  ghost predicate Below<T>(t: Tree<T>, key: T -> int, k: int, c: T) {
    forall n :: n in t.m && key(n) == k ==> n in t.Desc(c)
  }

  lemma SearchStart<T>(t: Tree<T>, key: T -> int, k: int)
    requires Shape(t, key)
    ensures Below(t, key, k, t.root) && (t.root != t.nil ==> OnPath(t, key, k, t.root))
  {
    forall a | a in t.m ensures OnSide(t, key, k, t.root, a) {
      RootNotBelow(t, key, a);
    }
  }

  lemma SearchStep<T>(t: Tree<T>, key: T -> int, k: int, c: T)
    requires Shape(t, key) && c in t.m && Below(t, key, k, c) && OnPath(t, key, k, c) && k != key(c)
    ensures var n := t.m[c].Kid(key(c) < k);
            && Below(t, key, k, n) && |t.Desc(n)| < |t.Desc(c)|
            && (n != t.nil ==> n in t.m && OnPath(t, key, k, n))
  {
    assert Ordered(t, key, c) && Linked(t, c);
    var n := t.m[c].Kid(key(c) < k);
    SubsetSize(t.Desc(n) + {c}, t.desc[c]);
    if n != t.nil {
      forall a | a in t.m ensures OnSide(t, key, k, n, a) {
        assert OnSide(t, key, k, c, a) && Ordered(t, key, a) && Linked(t, a);
        OnSideStep(t, key, k, c, n, a);
      }
    }
  }

  lemma OnSideStep<T>(t: Tree<T>, key: T -> int, k: int, c: T, n: T, a: T)
    requires Shape(t, key) && c in t.m && k != key(c) && n == t.m[c].Kid(key(c) < k) && n in t.m && t.m[n].parent == c
    requires a in t.m && OnSide(t, key, k, c, a) && Ordered(t, key, a) && Linked(t, a) && Ordered(t, key, c)
    ensures OnSide(t, key, k, n, a)
  {
    InSubtree(t, key, n);
    forall e | (e == t.m[a].left || e == t.m[a].right) && n in t.Desc(e) ensures a == c || c in t.Desc(e) {
      if n == e {
        assert a == c;
      } else {
        Nested(t, key, e, n);
      }
    }
  }

  /** The tree with a new red leaf x below p on side d, or as the root if there is no p. */
  ghost function WithLeaf<T>(t: Tree<T>, x: T, p: T, d: bool): Tree<T> {
    var m1 := t.m[x := Links(true, p, t.nil, t.nil)];
    Tree(if p in t.m then m1[p := t.m[p].WithKid(d, x)] else m1, t.nil, if p in t.m then t.root else x,
         map a | a in t.m.Keys + {x} :: if a == x then {x} else if p in t.m && p in t.Desc(a) then t.Desc(a) + {x}
             else t.Desc(a))
  }

  /** The tree once the parent, or the root, points to x. */
  ghost function LeafLinks<T>(t: Tree<T>, x: T, p: T, d: bool): Tree<T> {
    if p in t.m then t.(m := t.m[p := t.m[p].WithKid(d, x)]) else t.(root := x)
  }

  lemma LeafLinksIs<T>(t: Tree<T>, x: T, p: T, d: bool)
    requires x !in t.m
    ensures var t', t1 := WithLeaf(t, x, p, d), LeafLinks(t, x, p, d);
            t' == t1.(m := t1.m[x := Links(true, p, t.nil, t.nil)], desc := t'.desc)
  {
    var t', t1 := WithLeaf(t, x, p, d), LeafLinks(t, x, p, d);
    if p in t.m {
      assert t'.m == t1.m[x := Links(true, p, t.nil, t.nil)];
    }
  }

  ghost predicate CanAddLeaf<T>(t: Tree<T>, key: T -> int, x: T, p: T, d: bool) {
    && Shape(t, key) && x !in t.m && x != t.nil
    && if p in t.m then t.m[p].Kid(d) == t.nil && OnPath(t, key, key(x), p)
        && (if d then key(p) < key(x) else key(x) < key(p))
       else p == t.nil && t.root == t.nil
  }

  /** t' is t with the leaf x. */
  ghost predicate IsLeafAdded<T>(t: Tree<T>, t': Tree<T>, x: T, p: T, d: bool) {
    && x !in t.m && x != t.nil && t.nil !in t.m && t.desc.Keys == t.m.Keys
    && t'.nil == t.nil && t'.m.Keys == t.m.Keys + {x} && t'.desc.Keys == t.m.Keys + {x}
    && t'.root == (if p in t.m then t.root else x)
    && t'.m[x] == Links(true, p, t.nil, t.nil) && t'.desc[x] == {x}
    && (forall n :: n in t.m ==> t'.m[n] == if n == p then t.m[n].WithKid(d, x) else t.m[n])
    && (forall n :: n in t.m ==> t'.desc[n] == if p in t.desc[n] then t.desc[n] + {x} else t.desc[n])
  }

  lemma WithLeafIs<T>(t: Tree<T>, key: T -> int, x: T, p: T, d: bool)
    requires CanAddLeaf(t, key, x, p, d)
    ensures IsLeafAdded(t, WithLeaf(t, x, p, d), x, p, d)
  {
    if p !in t.m {
      assert t.m.Keys == {};
    }
  }

  lemma LeafLinked<T>(t: Tree<T>, t': Tree<T>, x: T, p: T, d: bool, n: T)
    requires IsLeafAdded(t, t', x, p, d) && n in t.m && Linked(t, n)
    requires p in t.m && t.m[p].Kid(d) == t.nil
    ensures Linked(t', n)
  {
  }

  lemma LeafKidDesc<T>(t: Tree<T>, t': Tree<T>, x: T, p: T, d: bool, c: T)
    requires IsLeafAdded(t, t', x, p, d) && (c == t.nil || c in t.m)
    ensures t'.Desc(c) == if p in t.Desc(c) then t.Desc(c) + {x} else t.Desc(c)
  {
  }

  lemma LeafOrdered<T>(t: Tree<T>, t': Tree<T>, key: T -> int, x: T, p: T, d: bool, n: T)
    requires IsLeafAdded(t, t', x, p, d) && n in t.m && n != p && p in t.m
    requires Ordered(t, key, n) && Linked(t, n) && OnSide(t, key, key(x), p, n)
    ensures Ordered(t', key, n)
  {
    LeafKidDesc(t, t', x, p, d, t.m[n].left);
    LeafKidDesc(t, t', x, p, d, t.m[n].right);
  }

  lemma LeafAtParent<T>(t: Tree<T>, t': Tree<T>, key: T -> int, x: T, p: T, d: bool)
    requires IsLeafAdded(t, t', x, p, d) && p in t.m && Ordered(t, key, p) && Linked(t, p) && t.m[p].Kid(d) == t.nil
    requires if d then key(p) < key(x) else key(x) < key(p)
    ensures Ordered(t', key, p)
  {
    LeafKidDesc(t, t', x, p, d, t.m[p].Kid(!d));
  }

  lemma LeafShapeAt<T>(t: Tree<T>, t': Tree<T>, key: T -> int, x: T, p: T, d: bool, n: T)
    requires CanAddLeaf(t, key, x, p, d) && IsLeafAdded(t, t', x, p, d) && n in t.m
    ensures Linked(t', n) && Ordered(t', key, n)
  {
    assert Linked(t, n) && Ordered(t, key, n);
    assert OnSide(t, key, key(x), p, n);
    LeafLinked(t, t', x, p, d, n);
    if n == p {
      LeafAtParent(t, t', key, x, p, d);
    } else {
      LeafOrdered(t, t', key, x, p, d, n);
    }
  }

  lemma LeafItself<T>(t: Tree<T>, t': Tree<T>, key: T -> int, x: T, p: T, d: bool)
    requires CanAddLeaf(t, key, x, p, d) && IsLeafAdded(t, t', x, p, d)
    ensures Linked(t', x) && Ordered(t', key, x)
    ensures t'.root in t'.m && t'.desc[t'.root] == t'.m.Keys && t'.root != t'.nil
  {
    if p in t.m {
      assert Linked(t, t.root);
    }
  }

  lemma AddLeafShape<T>(t: Tree<T>, t': Tree<T>, key: T -> int, x: T, p: T, d: bool)
    requires CanAddLeaf(t, key, x, p, d) && IsLeafAdded(t, t', x, p, d)
    ensures Shape(t', key)
  {
    forall n | n in t'.m ensures Linked(t', n) && Ordered(t', key, n) {
      if n == x {
        LeafItself(t, t', key, x, p, d);
      } else {
        LeafShapeAt(t, t', key, x, p, d, n);
      }
    }
    LeafItself(t, t', key, x, p, d);
  }

  lemma LeafColoursAt<T>(t: Tree<T>, t': Tree<T>, h: map<T, nat>, x: T, p: T, d: bool, n: T)
    requires IsLeafAdded(t, t', x, p, d) && n in t.m && Linked(t, n) && (n == p ==> t.m[p].Kid(d) == t.nil)
    requires h.Keys == t.m.Keys && BalancedAt(t, h, NoGap, n) && RedAt(t, n, t.nil, t.nil)
    ensures BalancedAt(t', h[x := 0], NoGap, n)
    ensures RedAt(t', n, x, t.nil)
  {
  }

  lemma LeafColoursEach<T>(t: Tree<T>, t': Tree<T>, key: T -> int, h: map<T, nat>, x: T, p: T, d: bool, n: T)
    requires CanAddLeaf(t, key, x, p, d) && IsLeafAdded(t, t', x, p, d) && RedBlack(t, key, h) && n in t'.m
    ensures BalancedAt(t', h[x := 0], NoGap, n) && RedAt(t', n, x, t.nil)
  {
    if n == x {
      LeafOwnColours(t, t', h, x, p, d);
    } else {
      RedBlackAt(t, key, h, n);
      LeafColoursAt(t, t', h, x, p, d, n);
    }
  }

  lemma LeafOwnColours<T>(t: Tree<T>, t': Tree<T>, h: map<T, nat>, x: T, p: T, d: bool)
    requires IsLeafAdded(t, t', x, p, d)
    ensures BalancedAt(t', h[x := 0], NoGap, x) && RedAt(t', x, x, t.nil)
  {
  }

  lemma RedBlackAt<T>(t: Tree<T>, key: T -> int, h: map<T, nat>, n: T)
    requires RedBlack(t, key, h) && n in t.m
    ensures BalancedAt(t, h, NoGap, n) && RedAt(t, n, t.nil, t.nil) && Linked(t, n) && h.Keys == t.m.Keys
  {
  }

  /** A red leaf disturbs no height, and no colour but possibly that below its parent. */
  lemma AddLeafColours<T>(t: Tree<T>, t': Tree<T>, key: T -> int, h: map<T, nat>, x: T, p: T, d: bool)
    requires CanAddLeaf(t, key, x, p, d) && IsLeafAdded(t, t', x, p, d) && RedBlack(t, key, h)
    ensures Balanced(t', h[x := 0], NoGap) && NoRedRed(t', x, t.nil)
  {
    var h' := h[x := 0];
    forall n | n in t'.m ensures BalancedAt(t', h', NoGap, n) && RedAt(t', n, x, t.nil) {
      LeafColoursEach(t, t', key, h, x, p, d, n);
    }
  }

  lemma RootAfterLeaf<T>(t: Tree<T>, t': Tree<T>, x: T, p: T, d: bool)
    requires IsLeafAdded(t, t', x, p, d) && !IsRed(t, t.root) && (p in t.m ==> t.root in t.m)
    ensures IsRed(t', t'.root) ==> t'.root == x
  {
  }

  /** The tree with the new leaf is where the post-insert loop starts. */
  lemma AddLeafState<T>(t: Tree<T>, key: T -> int, h: map<T, nat>, x: T, p: T, d: bool)
    requires CanAddLeaf(t, key, x, p, d) && RedBlack(t, key, h)
    ensures InsertState(WithLeaf(t, x, p, d), key, h[x := 0], x)
  {
    var t' := WithLeaf(t, x, p, d);
    WithLeafIs(t, key, x, p, d);
    AddLeafShape(t, t', key, x, p, d);
    AddLeafColours(t, t', key, h, x, p, d);
    LeafRoot(t, t', key, h, x, p, d);
  }

  lemma LeafRoot<T>(t: Tree<T>, t': Tree<T>, key: T -> int, h: map<T, nat>, x: T, p: T, d: bool)
    requires CanAddLeaf(t, key, x, p, d) && RedBlack(t, key, h) && IsLeafAdded(t, t', x, p, d)
    ensures x in t'.m && t'.m[x].red && (IsRed(t', t'.root) ==> t'.root == x)
  {
    RootAfterLeaf(t, t', x, p, d);
  }

  /** The tree without y, whose only child c takes its place. */
  ghost predicate IsDetached<T>(t: Tree<T>, t': Tree<T>, y: T, c: T) {
    && y in t.m && t.nil !in t.m && t.desc.Keys == t.m.Keys && y != c
    && c == (if t.m[y].left == t.nil then t.m[y].right else t.m[y].left)
    && t'.nil == t.nil && t'.m.Keys == t.m.Keys - {y} && t'.desc.Keys == t.m.Keys - {y}
    && t'.root == (if t.m[y].parent in t.m then t.root else c)
    && (forall n :: n in t.m && n != y ==> t'.m[n] == DetachedLinks(t, y, c, n))
    && (forall n :: n in t.m && n != y ==> t'.desc[n] == t.desc[n] - {y})
  }

  ghost function DetachedLinks<T>(t: Tree<T>, y: T, c: T, n: T): Links<T>
    requires n in t.m && y in t.m
  {
    if n == c then t.m[n].(parent := t.m[y].parent)
    else if n == t.m[y].parent then t.m[n].WithKid(t.m[n].right == y, c)
    else t.m[n]
  }

  ghost predicate CanDetach<T>(t: Tree<T>, key: T -> int, y: T) {
    Shape(t, key) && y in t.m && (t.m[y].left == t.nil || t.m[y].right == t.nil)
  }

  lemma DetachFamily<T>(t: Tree<T>, key: T -> int, y: T, c: T)
    requires CanDetach(t, key, y) && c == (if t.m[y].left == t.nil then t.m[y].right else t.m[y].left)
    ensures c == t.nil || (c in t.m && c != y && t.m[c].parent == y && c != t.m[y].parent && c != t.root)
    ensures t.desc[y] == {y} + t.Desc(c) && y !in t.Desc(c)
    ensures var q := t.m[y].parent;
            if y == t.root then q == t.nil && t.desc[y] == t.m.Keys
                else q in t.m && q != y && (t.m[q].left == y <==> t.m[q].right != y)
    ensures t.nil !in t.m && t.m[y].parent != y
  {
    assert Linked(t, y) && Ordered(t, key, y);
    if c != t.nil {
      Family(t, key, y, t.m[y].left == t.nil);
    }
    var q := t.m[y].parent;
    if q in t.m {
      assert Ordered(t, key, q);
      InSubtree(t, key, y);
      Family(t, key, q, t.m[q].right == y);
    }
  }

  lemma DetachLinked<T>(t: Tree<T>, t': Tree<T>, y: T, c: T, n: T)
    requires IsDetached(t, t', y, c) && n in t.m && n != y && Linked(t, n) && Linked(t, y)
    requires c == t.nil || (c in t.m && t.m[c].parent == y && c != t.m[y].parent && c != t.root)
    requires t.m[y].left == t.nil || t.m[y].right == t.nil
    requires var q := t.m[y].parent; if y == t.root then q == t.nil
        else q in t.m && (t.m[q].left == y <==> t.m[q].right != y)
    ensures Linked(t', n)
  {
  }

  lemma DetachDesc<T>(t: Tree<T>, t': Tree<T>, y: T, c: T, k: T)
    requires IsDetached(t, t', y, c) && (k == t.nil || (k in t.m && k != y))
    ensures t'.Desc(k) == t.Desc(k) - {y}
  {
  }

  lemma DetachOrdered<T>(t: Tree<T>, t': Tree<T>, key: T -> int, y: T, c: T, n: T)
    requires IsDetached(t, t', y, c) && n in t.m && n != y && Linked(t, n) && Ordered(t, key, n)
    requires t.desc[y] == {y} + t.Desc(c) && y !in t.Desc(c) && (c == t.nil || (c in t.m && c != t.m[y].parent))
    requires var q := t.m[y].parent; q in t.m ==> (t.m[q].left == y <==> t.m[q].right != y)
    ensures Ordered(t', key, n)
  {
    if t.m[n].left != y { DetachDesc(t, t', y, c, t.m[n].left); }
    if t.m[n].right != y { DetachDesc(t, t', y, c, t.m[n].right); }
    DetachDesc(t, t', y, c, c);
  }

  lemma DetachAt<T>(t: Tree<T>, t': Tree<T>, key: T -> int, y: T, c: T, n: T)
    requires CanDetach(t, key, y) && IsDetached(t, t', y, c) && n in t.m && n != y
    ensures Linked(t', n) && Ordered(t', key, n)
  {
    DetachFamily(t, key, y, c);
    assert Linked(t, n) && Ordered(t, key, n) && Linked(t, y);
    DetachLinked(t, t', y, c, n);
    DetachOrdered(t, t', key, y, c, n);
  }

  lemma DetachRoot<T>(t: Tree<T>, t': Tree<T>, key: T -> int, y: T, c: T)
    requires CanDetach(t, key, y) && IsDetached(t, t', y, c)
    ensures if t'.root == t'.nil then t'.m.Keys == {} else t'.root in t'.m && t'.desc[t'.root] == t'.m.Keys
    ensures t.m[y].parent !in t.m ==> t'.root == c
    ensures t.m[y].parent in t.m ==> t'.root != c && t'.root != t'.nil
  {
    DetachFamily(t, key, y, c);
    if t.m[y].parent in t.m {
      DetachRootBelow(t, t', y, c);
    } else {
      DetachRootItself(t, t', y, c);
    }
  }

  lemma DetachRootBelow<T>(t: Tree<T>, t': Tree<T>, y: T, c: T)
    requires IsDetached(t, t', y, c) && t.m[y].parent in t.m && y != t.root && t.root in t.m
        && t.desc[t.root] == t.m.Keys && c != t.root
    ensures t'.root != t.nil && t'.root in t'.m && t'.desc[t'.root] == t'.m.Keys && t'.root != c
  {
  }

  lemma DetachRootItself<T>(t: Tree<T>, t': Tree<T>, y: T, c: T)
    requires IsDetached(t, t', y, c) && t.m[y].parent !in t.m && t.desc[y] == t.m.Keys
        && t.desc[y] == {y} + t.Desc(c) && y !in t.Desc(c)
    requires c == t.nil || c in t.m
    ensures if t'.root == t'.nil then t'.m.Keys == {} else t'.root in t'.m && t'.desc[t'.root] == t'.m.Keys
    ensures t'.root == c
  {
  }

  lemma DetachShape<T>(t: Tree<T>, t': Tree<T>, key: T -> int, y: T, c: T)
    requires CanDetach(t, key, y) && IsDetached(t, t', y, c)
    ensures Shape(t', key)
  {
    forall n | n in t'.m ensures Linked(t', n) && Ordered(t', key, n) {
      DetachAt(t, t', key, y, c, n);
    }
    DetachRoot(t, t', key, y, c);
  }

  lemma DetachBlack<T>(t: Tree<T>, t': Tree<T>, h: map<T, nat>, y: T, c: T, k: T)
    requires IsDetached(t, t', y, c) && h.Keys == t.m.Keys && k != y && (k == t.nil || k in t.m)
    ensures Black(t', h - {y}, k) == Black(t, h, k) && (IsRed(t', k) <==> IsRed(t, k))
  {
  }

  lemma DetachColoursAt<T>(t: Tree<T>, t': Tree<T>, h: map<T, nat>, y: T, c: T, n: T, gap: Gap<T>, up: T)
    requires IsDetached(t, t', y, c) && h.Keys == t.m.Keys && n in t.m && n != y && Linked(t, n)
        && BalancedAt(t, h, NoGap, n)
    requires RedAt(t, n, t.nil, t.nil) && RedAt(t, y, t.nil, t.nil) && BalancedAt(t, h, NoGap, y)
    requires c == t.nil || (c in t.m && t.m[c].parent == y)
    requires var q := t.m[y].parent; q in t.m ==> (t.m[q].left == y <==> t.m[q].right != y)
    requires gap == if t.m[y].red || t.m[y].parent !in t.m then NoGap
        else Gap(t.m[y].parent, t.m[t.m[y].parent].right == y)
    requires up == if t.m[y].red then t.nil else c
    ensures BalancedAt(t', h - {y}, gap, n) && RedAt(t', n, up, up)
  {
    if t.m[n].left != y { DetachBlack(t, t', h, y, c, t.m[n].left); }
    if t.m[n].right != y { DetachBlack(t, t', h, y, c, t.m[n].right); }
    DetachBlack(t, t', h, y, c, c);
  }

  lemma DetachColoursEach<T>(t: Tree<T>, t': Tree<T>, key: T -> int, h: map<T, nat>, y: T, c: T, n: T, gap: Gap<T>,
      up: T)
    requires CanDetach(t, key, y) && IsDetached(t, t', y, c) && RedBlack(t, key, h) && n in t.m && n != y
    requires gap == if t.m[y].red || t.m[y].parent !in t.m then NoGap
        else Gap(t.m[y].parent, t.m[t.m[y].parent].right == y)
    requires up == if t.m[y].red then t.nil else c
    ensures BalancedAt(t', h - {y}, gap, n) && RedAt(t', n, up, up)
  {
    RedBlackAt(t, key, h, n);
    RedBlackAt(t, key, h, y);
    DetachFamily(t, key, y, c);
    DetachColoursAt(t, t', h, y, c, n, gap, up);
  }

  lemma DetachColours<T>(t: Tree<T>, t': Tree<T>, key: T -> int, h: map<T, nat>, y: T, c: T, gap: Gap<T>, up: T)
    requires CanDetach(t, key, y) && IsDetached(t, t', y, c) && RedBlack(t, key, h)
    requires gap == if t.m[y].red || t.m[y].parent !in t.m then NoGap
        else Gap(t.m[y].parent, t.m[t.m[y].parent].right == y)
    requires up == if t.m[y].red then t.nil else c
    ensures Balanced(t', h - {y}, gap) && NoRedRed(t', up, up)
  {
    forall n | n in t'.m ensures BalancedAt(t', h - {y}, gap, n) && RedAt(t', n, up, up) {
      DetachColoursEach(t, t', key, h, y, c, n, gap, up);
    }
    assert h.Keys == t.m.Keys;
    assert (h - {y}).Keys == h.Keys - {y};
  }

  /** Detaching a red node leaves a red-black tree. */
  lemma DetachRed<T>(t: Tree<T>, t': Tree<T>, key: T -> int, h: map<T, nat>, y: T, c: T)
    requires CanDetach(t, key, y) && IsDetached(t, t', y, c) && RedBlack(t, key, h) && t.m[y].red
    ensures RedBlack(t', key, h - {y})
  {
    DetachShape(t, t', key, y, c);
    DetachColours(t, t', key, h, y, c, NoGap, t.nil);
    DetachFamily(t, key, y, c);
  }

  /** Detaching a black node leaves the paths through its place one black node short. */
  lemma DetachBlackNode<T>(t: Tree<T>, t': Tree<T>, key: T -> int, h: map<T, nat>, y: T, c: T, q: T, s: bool)
    requires CanDetach(t, key, y) && IsDetached(t, t', y, c) && RedBlack(t, key, h) && !t.m[y].red
    requires q == t.m[y].parent && (q in t.m ==> s == (t.m[q].right == y))
    ensures EraseState(t', key, h - {y}, c, q, s)
  {
    DetachShape(t, t', key, y, c);
    DetachColours(t, t', key, h, y, c, if q in t.m then Gap(q, s) else NoGap, c);
    DetachRoot(t, t', key, y, c);
    DetachKid(t, t', key, y, c, q, s);
  }

  lemma DetachKid<T>(t: Tree<T>, t': Tree<T>, key: T -> int, y: T, c: T, q: T, s: bool)
    requires CanDetach(t, key, y) && IsDetached(t, t', y, c) && !IsRed(t, t.root)
    requires q == t.m[y].parent && (q in t.m ==> s == (t.m[q].right == y))
    ensures q in t.m ==> q in t'.m && t'.m[q].Kid(s) == c
    ensures IsRed(t', t'.root) ==> t'.root == c
  {
    DetachFamily(t, key, y, c);
  }

  /** What y has become of a link to z. */
  ghost function Renamed<T>(z: T, y: T, n: T): T {
    if n == z then y else n
  }

  ghost function RenamedLinks<T>(z: T, y: T, l: Links<T>): Links<T> {
    Links(l.red, Renamed(z, y, l.parent), Renamed(z, y, l.left), Renamed(z, y, l.right))
  }

  ghost function RenamedSet<T>(z: T, y: T, s: set<T>): set<T> {
    if z in s then s - {z} + {y} else s
  }

  /** The tree with y in the place of z. */
  ghost predicate IsSupplanted<T>(t: Tree<T>, t': Tree<T>, z: T, y: T) {
    && z in t.m && y !in t.m && y != t.nil && t.nil !in t.m && t.desc.Keys == t.m.Keys
    && t'.nil == t.nil && t'.root == Renamed(z, y, t.root)
    && t'.m.Keys == t.m.Keys - {z} + {y} && t'.desc.Keys == t.m.Keys - {z} + {y}
    && (forall n :: n in t.m ==> t'.m[Renamed(z, y, n)] == RenamedLinks(z, y, t.m[n]))
    && (forall n :: n in t.m ==> t'.desc[Renamed(z, y, n)] == RenamedSet(z, y, t.desc[n]))
  }

  /** y's key stands to every other key as z's does. */
  ghost predicate Adjacent<T>(nodes: set<T>, key: T -> int, z: T, y: T) {
    forall a :: a in nodes && a != z ==> key(a) != key(y) && (key(a) < key(z) <==> key(a) < key(y))
  }

  lemma SupplantDesc<T>(t: Tree<T>, t': Tree<T>, z: T, y: T, k: T)
    requires IsSupplanted(t, t', z, y) && (k == t.nil || k in t.m)
    ensures t'.Desc(Renamed(z, y, k)) == RenamedSet(z, y, t.Desc(k))
  {
  }

  lemma SupplantLinked<T>(t: Tree<T>, t': Tree<T>, z: T, y: T, n: T)
    requires IsSupplanted(t, t', z, y) && n in t.m && Linked(t, n) && t.root in t.m
    ensures Renamed(z, y, n) in t'.m && Linked(t', Renamed(z, y, n))
  {
  }

  /** Renaming keeps a set of nodes on its side of another node. */
  lemma SupplantSides<T>(t: Tree<T>, key: T -> int, z: T, y: T, s: set<T>, n: T)
    requires Adjacent(t.m.Keys, key, z, y) && z in t.m && s <= t.m.Keys && n in t.m && n !in s
    ensures (forall x :: x in s ==> key(x) < key(n)) ==> forall x ::
        x in RenamedSet(z, y, s)
        ==> key(x) < key(Renamed(z, y, n))
    ensures (forall x :: x in s ==> key(n) < key(x)) ==> forall x ::
        x in RenamedSet(z, y, s)
        ==> key(Renamed(z, y, n)) < key(x)
  {
  }

  lemma SupplantOrdered<T>(t: Tree<T>, t': Tree<T>, key: T -> int, z: T, y: T, n: T)
    requires IsSupplanted(t, t', z, y) && n in t.m && Linked(t, n) && Ordered(t, key, n)
        && Adjacent(t.m.Keys, key, z, y)
    ensures Renamed(z, y, n) in t'.m && Ordered(t', key, Renamed(z, y, n))
  {
    var l, r := t.Desc(t.m[n].left), t.Desc(t.m[n].right);
    SupplantDesc(t, t', z, y, t.m[n].left);
    SupplantDesc(t, t', z, y, t.m[n].right);
    SupplantSides(t, key, z, y, l, n);
    SupplantSides(t, key, z, y, r, n);
    SupplantSets(t.m.Keys, t.desc[n], l, r, z, y, n);
  }

  lemma SupplantSets<T>(all: set<T>, whole: set<T>, l: set<T>, r: set<T>, z: T, y: T, n: T)
    requires whole == {n} + l + r && whole <= all && n !in l && n !in r && l !! r && z in all && y !in all
    ensures RenamedSet(z, y, whole) == {Renamed(z, y, n)} + RenamedSet(z, y, l) + RenamedSet(z, y, r)
    ensures Renamed(z, y, n) !in RenamedSet(z, y, l) && Renamed(z, y, n) !in RenamedSet(z, y, r)
    ensures RenamedSet(z, y, l) !! RenamedSet(z, y, r)
    ensures RenamedSet(z, y, whole) <= all - {z} + {y}
  {
  }

  lemma SupplantShapeEach<T>(t: Tree<T>, t': Tree<T>, key: T -> int, z: T, y: T, n: T)
    requires Shape(t, key) && IsSupplanted(t, t', z, y) && Adjacent(t.m.Keys, key, z, y) && n in t'.m
    ensures Linked(t', n) && Ordered(t', key, n)
  {
    var o := if n == y then z else n;
    assert Linked(t, o) && Ordered(t, key, o);
    SupplantLinked(t, t', z, y, o);
    SupplantOrdered(t, t', key, z, y, o);
  }

  lemma SupplantRoot<T>(t: Tree<T>, t': Tree<T>, z: T, y: T)
    requires IsSupplanted(t, t', z, y) && t.root in t.m && t.desc[t.root] == t.m.Keys
    ensures t'.root in t'.m && t'.root != t'.nil && t'.desc[t'.root] == t'.m.Keys
  {
  }

  lemma SupplantShape<T>(t: Tree<T>, t': Tree<T>, key: T -> int, z: T, y: T)
    requires Shape(t, key) && IsSupplanted(t, t', z, y) && Adjacent(t.m.Keys, key, z, y)
    ensures Shape(t', key)
  {
    hide Linked, Ordered;
    forall n | n in t'.m ensures Linked(t', n) && Ordered(t', key, n) {
      SupplantShapeEach(t, t', key, z, y, n);
    }
    SupplantRoot(t, t', z, y);
  }

  ghost function SupplantedHeights<T>(h: map<T, nat>, z: T, y: T): map<T, nat>
    requires z in h
  {
    (h - {z})[y := h[z]]
  }

  lemma SupplantColoursAt<T>(t: Tree<T>, t': Tree<T>, h: map<T, nat>, z: T, y: T, n: T)
    requires IsSupplanted(t, t', z, y) && n in t.m && h.Keys == t.m.Keys && Linked(t, n)
    requires BalancedAt(t, h, NoGap, n) && RedAt(t, n, t.nil, t.nil)
    ensures Renamed(z, y, n) in t'.m && BalancedAt(t', SupplantedHeights(h, z, y), NoGap, Renamed(z, y, n))
    ensures RedAt(t', Renamed(z, y, n), t.nil, t.nil)
  {
    SupplantBlack(t, t', h, z, y, t.m[n].left);
    SupplantBlack(t, t', h, z, y, t.m[n].right);
  }

  lemma SupplantBlack<T>(t: Tree<T>, t': Tree<T>, h: map<T, nat>, z: T, y: T, k: T)
    requires IsSupplanted(t, t', z, y) && h.Keys == t.m.Keys && (k == t.nil || k in t.m)
    ensures Black(t', SupplantedHeights(h, z, y), Renamed(z, y, k)) == Black(t, h, k)
    ensures IsRed(t', Renamed(z, y, k)) <==> IsRed(t, k)
  {
  }

  lemma SupplantColoursEach<T>(t: Tree<T>, t': Tree<T>, key: T -> int, h: map<T, nat>, z: T, y: T, n: T)
    requires RedBlack(t, key, h) && IsSupplanted(t, t', z, y) && n in t'.m
    ensures z in h && BalancedAt(t', SupplantedHeights(h, z, y), NoGap, n) && RedAt(t', n, t.nil, t.nil)
  {
    var o := if n == y then z else n;
    RedBlackAt(t, key, h, o);
    SupplantColoursAt(t, t', h, z, y, o);
  }

  lemma SupplantColours<T>(t: Tree<T>, t': Tree<T>, key: T -> int, h: map<T, nat>, z: T, y: T)
    requires RedBlack(t, key, h) && IsSupplanted(t, t', z, y) && z in h
    ensures Balanced(t', SupplantedHeights(h, z, y), NoGap) && NoRedRed(t', t.nil, t.nil)
  {
    forall n | n in t'.m ensures BalancedAt(t', SupplantedHeights(h, z, y), NoGap, n) && RedAt(t', n, t.nil, t.nil) {
      SupplantColoursEach(t, t', key, h, z, y, n);
    }
    SupplantKeys(t, t', h, z, y);
  }

  lemma SupplantKeys<T>(t: Tree<T>, t': Tree<T>, h: map<T, nat>, z: T, y: T)
    requires IsSupplanted(t, t', z, y) && h.Keys == t.m.Keys
    ensures SupplantedHeights(h, z, y).Keys == t'.m.Keys
  {
  }

  /** Putting a node with an adjacent key in another's place keeps the red-black tree. */
  lemma Supplant<T>(t: Tree<T>, t': Tree<T>, key: T -> int, h: map<T, nat>, z: T, y: T)
    requires RedBlack(t, key, h) && IsSupplanted(t, t', z, y) && Adjacent(t.m.Keys, key, z, y)
    ensures z in h && RedBlack(t', key, SupplantedHeights(h, z, y))
  {
    SupplantShape(t, t', key, z, y);
    SupplantColours(t, t', key, h, z, y);
    assert t.root in t.m;
  }

  lemma ApartStep<T>(t: Tree<T>, key: T -> int, n: T, p: T, a: T, x: T)
    requires p in t.m && n in t.m && n in t.desc && Ordered(t, key, p) && (n == t.m[p].left || n == t.m[p].right)
        && n != t.nil && n in t.desc[n]
    requires a !in t.desc[n] && x in t.desc[n] && a in t.desc[p]
    ensures key(a) < key(n) <==> key(a) < key(x)
    ensures key(a) != key(x)
  {
  }

  /** A node outside a subtree has its key on one side of all keys in it. */
  lemma {:induction false} Apart<T>(t: Tree<T>, key: T -> int, n: T, a: T, x: T)
    requires Shape(t, key) && n in t.m && a in t.m && a !in t.desc[n] && x in t.desc[n]
    ensures key(a) < key(n) <==> key(a) < key(x)
    ensures key(a) != key(x)
    decreases |t.m.Keys| - |t.desc[n]|
  {
    var p := t.m[n].parent;
    ParentSubtree(t, key, n, p);
    if a in t.desc[p] {
      ApartStep(t, key, n, p, a, x);
    } else {
      Apart(t, key, p, a, x);
      Apart(t, key, p, a, n);
    }
  }

  lemma KeysDiffer<T>(t: Tree<T>, key: T -> int, a: T, b: T)
    requires Shape(t, key) && a in t.m && b in t.m && a != b
    ensures key(a) != key(b)
  {
    InSubtree(t, key, a);
    if b in t.desc[a] {
      assert Ordered(t, key, a);
    } else {
      Apart(t, key, a, b, a);
    }
  }

  /** No key between z and the candidate c lies outside c's left subtree. */
  ghost predicate Leftmost<T>(t: Tree<T>, key: T -> int, z: T, c: T)
    requires c in t.m
  {
    key(z) < key(c) && forall a :: a in t.m ==> Beyond(t, key, z, c, a)
  }

  ghost predicate Beyond<T>(t: Tree<T>, key: T -> int, z: T, c: T, a: T)
    requires c in t.m
  {
    a != c && key(z) < key(a) ==> key(c) < key(a) || a in t.Desc(t.m[c].left)
  }

  lemma SuccessorStart<T>(t: Tree<T>, key: T -> int, z: T)
    requires Shape(t, key) && z in t.m && t.m[z].right != t.nil
    ensures var c := t.m[z].right; c in t.m && Leftmost(t, key, z, c) && z !in t.Desc(c)
  {
    var c := t.m[z].right;
    assert Linked(t, z) && Ordered(t, key, z);
    InSubtree(t, key, c);
    assert Ordered(t, key, c);
    forall a | a in t.m ensures Beyond(t, key, z, c, a) {
      if a !in t.desc[z] {
        Apart(t, key, z, a, c);
      }
    }
  }

  lemma SuccessorBeyond<T>(t: Tree<T>, key: T -> int, z: T, c: T, n: T, a: T)
    requires c in t.m && n in t.m && n == t.m[c].left && n != t.nil && Ordered(t, key, c) && Ordered(t, key, n)
        && n in t.Desc(n)
    requires Beyond(t, key, z, c, a)
    ensures Beyond(t, key, z, n, a)
  {
  }

  lemma SuccessorStep<T>(t: Tree<T>, key: T -> int, z: T, c: T)
    requires Shape(t, key) && c in t.m && z in t.m && Leftmost(t, key, z, c) && z !in t.Desc(c) && t.m[c].left != t.nil
    ensures var n := t.m[c].left; n in t.m && Leftmost(t, key, z, n) && z !in t.Desc(n) && |t.Desc(n)| < |t.Desc(c)|
  {
    var n := t.m[c].left;
    SuccessorKid(t, key, z, c, n);
    forall a | a in t.m ensures Beyond(t, key, z, n, a) {
      assert Beyond(t, key, z, c, a);
      SuccessorBeyond(t, key, z, c, n, a);
    }
  }

  lemma SuccessorKid<T>(t: Tree<T>, key: T -> int, z: T, c: T, n: T)
    requires Shape(t, key) && c in t.m && z in t.m && key(z) < key(c) && z !in t.Desc(c) && n == t.m[c].left
        && n != t.nil
    ensures n in t.m && Ordered(t, key, c) && Ordered(t, key, n) && n in t.Desc(n) && key(z) < key(n)
    ensures z !in t.Desc(n) && |t.Desc(n)| < |t.Desc(c)|
  {
    assert Linked(t, c) && Ordered(t, key, c);
    InSubtree(t, key, n);
    SubsetSize(t.Desc(n) + {c}, t.desc[c]);
    Apart(t, key, c, z, n);
  }

  /** y has the least key above that of z. */
  ghost predicate IsSuccessor<T>(t: Tree<T>, key: T -> int, z: T, y: T) {
    key(z) < key(y) && forall a :: a in t.m && a != y && key(z) < key(a) ==> key(y) < key(a)
  }

  /** Without a left child the candidate is the in-order successor of z. */
  lemma SuccessorFound<T>(t: Tree<T>, key: T -> int, z: T, y: T)
    requires Shape(t, key) && z in t.m && y in t.m && Leftmost(t, key, z, y) && t.m[y].left == t.nil
    ensures IsSuccessor(t, key, z, y) && Adjacent(t.m.Keys - {y}, key, z, y)
  {
    forall a | a in t.m && a != y && key(z) < key(a) ensures key(y) < key(a) {
      assert Beyond(t, key, z, y, a);
    }
    forall a | a in t.m.Keys - {y} && a != z ensures key(a) != key(y) && (key(a) < key(z) <==> key(a) < key(y)) {
      KeysDiffer(t, key, a, z);
      assert Beyond(t, key, z, y, a);
    }
  }

  /** The links once the child of y has taken its place. */
  ghost function Bridged<T>(t: Tree<T>, y: T, c: T, q: T): Tree<T>
    requires (c == t.nil || c in t.m) && (q == t.nil || q in t.m)
  {
    t.(m := Replace(if c == t.nil then t.m else t.m[c := t.m[c].(parent := q)], t.nil, y, c, q), root := if q
        == t.nil then c else t.root)
  }

  /** The tree once y is not counted as one of its nodes. */
  ghost function Without<T>(t: Tree<T>, y: T): Tree<T> {
    t.(m := t.m - {y}, desc := map n | n in t.desc && n != y :: t.desc[n] - {y})
  }

  lemma DetachedIs<T>(t: Tree<T>, key: T -> int, y: T, c: T, q: T)
    requires CanDetach(t, key, y) && c == (if t.m[y].left == t.nil then t.m[y].right else t.m[y].left)
        && q == t.m[y].parent
    ensures (c == t.nil || (c in t.m && c != y)) && (q == t.nil || (q in t.m && q != y))
    ensures Bridged(t, y, c, q).m[y] == t.m[y]
    ensures IsDetached(t, Without(Bridged(t, y, c, q), y), y, c)
  {
    DetachFamily(t, key, y, c);
    BridgedIs(t, y, c, q);
  }

  lemma BridgedIs<T>(t: Tree<T>, y: T, c: T, q: T)
    requires y in t.m && t.nil !in t.m && t.desc.Keys == t.m.Keys && y != c && q != y && q == t.m[y].parent
    requires c == (if t.m[y].left == t.nil then t.m[y].right else t.m[y].left)
    requires (c == t.nil || (c in t.m && c != q)) && (q == t.nil || q in t.m)
    ensures Bridged(t, y, c, q).m[y] == t.m[y] && IsDetached(t, Without(Bridged(t, y, c, q), y), y, c)
  {
  }

  /** The links once y has replaced z in them. */
  ghost function Relinked<T>(t: Tree<T>, z: T, y: T, l: Links<T>): Tree<T>
    requires (l.parent == t.nil || l.parent in t.m) && (l.left == t.nil || l.left in t.m)
        && (l.right == t.nil || l.right in t.m)
  {
    var m1 := Replace(t.m, t.nil, z, y, l.parent);
    var m2 := if l.left == t.nil then m1 else m1[l.left := m1[l.left].(parent := y)];
    var m3 := if l.right == t.nil then m2 else m2[l.right := m2[l.right].(parent := y)];
    t.(m := m3, root := if l.parent == t.nil then y else t.root)
  }

  /** The tree once y, with the links of z, counts as one of its nodes instead of z. */
  ghost function Exchanged<T>(t: Tree<T>, z: T, y: T, l: Links<T>, desc: map<T, set<T>>): Tree<T> {
    t.(m := (t.m - {z})[y := l], desc := desc)
  }

  ghost function RenamedDesc<T>(t: Tree<T>, z: T, y: T): map<T, set<T>>
    requires t.desc.Keys == t.m.Keys && z in t.m
  {
    map n | n in t.m.Keys - {z} + {y} :: RenamedSet(z, y, t.desc[if n in t.m && n != z then n else z])
  }

  lemma SupplantFamily<T>(t: Tree<T>, key: T -> int, z: T, l: Links<T>)
    requires Shape(t, key) && z in t.m && l == t.m[z]
    ensures (l.parent == t.nil || (l.parent in t.m && l.parent != z)) && (z == t.root <==> l.parent == t.nil)
    ensures (l.left == t.nil || (l.left in t.m && l.left != z))
        && (l.right == t.nil || (l.right in t.m && l.right != z))
    ensures t.nil !in t.m && t.desc.Keys == t.m.Keys
    ensures l.left != t.nil ==> l.left != l.right && l.left != l.parent
    ensures l.right != t.nil ==> l.right != l.parent
  {
    assert Linked(t, z);
    if l.left != t.nil { Family(t, key, z, false); }
    if l.right != t.nil { Family(t, key, z, true); }
    if z != t.root {
      ParentSubtree(t, key, z, l.parent);
    }
  }

  lemma RelinkedAt<T>(t: Tree<T>, key: T -> int, z: T, y: T, l: Links<T>, n: T)
    requires Shape(t, key) && z in t.m && l == t.m[z] && n in t.m && n != z
    ensures (l.parent == t.nil || l.parent in t.m) && (l.left == t.nil || l.left in t.m)
        && (l.right == t.nil || l.right in t.m)
    ensures Relinked(t, z, y, l).m[n] == RenamedLinks(z, y, t.m[n])
  {
    SupplantFamily(t, key, z, l);
    assert Linked(t, n) && Linked(t, z);
    KidsDiffer(t, key, n);
    RelinkedLinks(t, z, y, l, n);
  }

  lemma RelinkedLinks<T>(t: Tree<T>, z: T, y: T, l: Links<T>, n: T)
    requires t.nil !in t.m && z in t.m && l == t.m[z] && n in t.m && n != z && Linked(t, n) && Linked(t, z)
    requires (l.parent == t.nil || l.parent in t.m) && (l.left == t.nil || l.left in t.m)
        && (l.right == t.nil || l.right in t.m)
    requires l.left != t.nil ==> l.left != l.right && l.left != l.parent
    requires l.right != t.nil ==> l.right != l.parent
    requires t.m[n].left == t.m[n].right ==> t.m[n].left == t.nil
    ensures Relinked(t, z, y, l).m[n] == RenamedLinks(z, y, t.m[n])
  {
  }

  lemma SupplantedAt<T>(t: Tree<T>, key: T -> int, z: T, y: T, l: Links<T>, n: T)
    requires Shape(t, key) && z in t.m && l == t.m[z] && y !in t.m && y != t.nil && n in t.m
    ensures (l.parent == t.nil || l.parent in t.m) && (l.left == t.nil || l.left in t.m)
        && (l.right == t.nil || l.right in t.m)
    ensures var m := Exchanged(Relinked(t, z, y, l), z, y, l, RenamedDesc(t, z, y)).m;
            Renamed(z, y, n) in m && m[Renamed(z, y, n)] == RenamedLinks(z, y, t.m[n])
  {
    SupplantFamily(t, key, z, l);
    if n != z {
      RelinkedAt(t, key, z, y, l, n);
    }
  }

  lemma SupplantedIs<T>(t: Tree<T>, key: T -> int, z: T, y: T, l: Links<T>)
    requires Shape(t, key) && z in t.m && l == t.m[z] && y !in t.m && y != t.nil
    ensures (l.parent == t.nil || l.parent in t.m) && (l.left == t.nil || l.left in t.m)
        && (l.right == t.nil || l.right in t.m)
    ensures z in Relinked(t, z, y, l).m && Relinked(t, z, y, l).m[z] == l
    ensures IsSupplanted(t, Exchanged(Relinked(t, z, y, l), z, y, l, RenamedDesc(t, z, y)), z, y)
  {
    SupplantFamily(t, key, z, l);
    SupplantedFrame(t, key, z, y, l);
    var t' := Exchanged(Relinked(t, z, y, l), z, y, l, RenamedDesc(t, z, y));
    forall n | n in t.m ensures Renamed(z, y, n) in t'.m && t'.m[Renamed(z, y, n)] == RenamedLinks(z, y, t.m[n]) {
      SupplantedAt(t, key, z, y, l, n);
    }
    hide Shape, RenamedLinks, RenamedSet, Exchanged, RenamedDesc;
    assert z in Relinked(t, z, y, l).m && Relinked(t, z, y, l).m[z] == l;
  }

  lemma SupplantedFrame<T>(t: Tree<T>, key: T -> int, z: T, y: T, l: Links<T>)
    requires Shape(t, key) && z in t.m && l == t.m[z] && y !in t.m && y != t.nil
    ensures (l.parent == t.nil || l.parent in t.m) && (l.left == t.nil || l.left in t.m)
        && (l.right == t.nil || l.right in t.m)
    ensures t.desc.Keys == t.m.Keys && t.nil !in t.m
    ensures var t' := Exchanged(Relinked(t, z, y, l), z, y, l, RenamedDesc(t, z, y));
            && t'.nil == t.nil && t'.root == Renamed(z, y, t.root)
            && t'.m.Keys == t.m.Keys - {z} + {y} && t'.desc.Keys == t.m.Keys - {z} + {y}
            && (forall n :: n in t.m ==> t'.desc[Renamed(z, y, n)] == RenamedSet(z, y, t.desc[n]))
  {
    SupplantFamily(t, key, z, l);
    hide Shape, RenamedSet;
  }

  lemma SupplantStep<T>(t: Tree<T>, key: T -> int, h: map<T, nat>, z: T, y: T, l: Links<T>)
    requires RedBlack(t, key, h) && z in t.m && l == t.m[z] && y !in t.m && y != t.nil && Adjacent(t.m.Keys, key, z, y)
    ensures z in h && (l.parent == t.nil || l.parent in t.m) && (l.left == t.nil || l.left in t.m)
        && (l.right == t.nil || l.right in t.m)
    ensures t.desc.Keys == t.m.Keys && z in Relinked(t, z, y, l).m && Relinked(t, z, y, l).m[z] == l
    ensures RedBlack(Exchanged(Relinked(t, z, y, l), z, y, l, RenamedDesc(t, z, y)), key, SupplantedHeights(h, z, y))
  {
    SupplantedIs(t, key, z, y, l);
    Supplant(t, Exchanged(Relinked(t, z, y, l), z, y, l, RenamedDesc(t, z, y)), key, h, z, y);
  }
}
