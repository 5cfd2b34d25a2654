/** cc_omap: an ordered map as a red-black tree with parent pointers and one shared, never written sentinel. */
module OMap {
  import opened Wrappers
  import opened TreeShape
  import opened TreeColours
  import opened TreeInsert
  import opened TreeErase
  import opened TreeEdit

  class Node<V> {
    const key: int
    var val: V
    var isRed: bool
    var parent: Node?<V>
    var left: Node?<V>
    var right: Node?<V>

    constructor (key: int, val: V, isRed: bool, parent: Node?<V>, left: Node?<V>, right: Node?<V>)
      ensures this.key == key && this.val == val && this.isRed == isRed
      ensures this.parent == parent && this.left == left && this.right == right
    {
      this.key, this.val, this.isRed := key, val, isRed;
      this.parent, this.left, this.right := parent, left, right;
    }
  }

  ghost function Key<V>(): Node<V> -> int {
    (n: Node<V>) => n.key
  }

  class OMap<V> {
    var root: Node<V>
    const sentinel: Node<V>
    var size: nat

    /** The links, colours and subtrees of the nodes in the map, and their black heights. */
    ghost var t: Tree<Node<V>>
    ghost var h: map<Node<V>, nat>
    ghost var nodes: set<Node<V>>

    /** The ordered map that the nodes stand for. */
    ghost var contents: map<int, V>

    /** cc_omap_alloc_hdr: an empty map that shares the given sentinel. */
    constructor (sentinel: Node<V>)
      requires !sentinel.isRed
      ensures Valid() && this.sentinel == sentinel && contents == map[]
    {
      this.sentinel, root, size := sentinel, sentinel, 0;
      t := Tree(map[], sentinel, sentinel, map[]);
      h := map[];
      nodes := {};
      contents := map[];
    }

    ghost predicate Holds(n: Node<V>, l: Links<Node<V>>)
      reads n
    {
      n.isRed == l.red && n.parent == l.parent && n.left == l.left && n.right == l.right
    }

    /** The fields of the nodes are what `t` says. */
    ghost predicate Synced()
      reads `t, `root, `nodes, nodes, sentinel
    {
      && t.m.Keys == nodes && t.nil == sentinel && t.root == root && sentinel !in nodes && !sentinel.isRed
      && forall n {:trigger Holds(n, t.m[n])} :: n in nodes ==> Holds(n, t.m[n])
    }

    /** The fields make a red-black search tree. */
    ghost predicate Sound()
      reads `t, `h, `root, `nodes, nodes, sentinel
    {
      Synced() && RedBlack(t, Key(), h)
    }

    static ghost predicate HasKey(s: set<Node<V>>, k: int) {
      exists n :: n in s && n.key == k
    }

    static ghost predicate AgreesAt(n: Node<V>, m: map<int, V>)
      reads n`val
    {
      n.key in m && m[n.key] == n.val
    }

    /** These nodes hold the pairs of the map. */
    static ghost predicate Agrees(s: set<Node<V>>, m: map<int, V>)
      reads s`val
    {
      && (forall n {:trigger AgreesAt(n, m)} :: n in s ==> AgreesAt(n, m))
      && (forall k {:trigger HasKey(s, k)} :: k in m ==> HasKey(s, k))
    }

    /** A red-black search tree that holds the pairs of `contents`. */
    ghost predicate Valid()
      reads this, nodes, sentinel
    {
      Sound() && size == |nodes| && Agrees(nodes, contents)
    }

    method SetParent(n: Node<V>, p: Node<V>)
      requires Synced() && n in t.m
      modifies this`t, n`parent
      ensures Synced() && t == old(t).(m := old(t.m)[n := old(t.m[n]).(parent := p)])
    {
      n.parent := p;
      t := t.(m := t.m[n := t.m[n].(parent := p)]);
      forall k | k in nodes ensures Holds(k, t.m[k]) {
        assert old(Holds(k, t.m[k]));
      }
    }

    method SetKid(n: Node<V>, d: bool, c: Node<V>)
      requires Synced() && n in t.m
      modifies this`t, n`left, n`right
      ensures Synced() && t == old(t).(m := old(t.m)[n := old(t.m[n]).WithKid(d, c)])
    {
      if d {
        n.right := c;
      } else {
        n.left := c;
      }
      t := t.(m := t.m[n := t.m[n].WithKid(d, c)]);
      forall k | k in nodes ensures Holds(k, t.m[k]) {
        assert old(Holds(k, t.m[k]));
      }
    }

    method SetRed(n: Node<V>, red: bool)
      requires Synced() && n in t.m
      modifies this`t, n`isRed
      ensures Synced() && t == Painted(old(t), n, red)
    {
      n.isRed := red;
      t := Painted(t, n, red);
      forall k | k in nodes ensures Holds(k, t.m[k]) {
        assert old(Holds(k, t.m[k]));
      }
    }

    ghost method SetDesc(desc: map<Node<V>, set<Node<V>>>)
      requires Synced()
      modifies this`t
      ensures Synced() && t == old(t).(desc := desc)
    {
      t := t.(desc := desc);
    }

    method Kid(n: Node<V>, d: bool) returns (c: Node<V>)
      requires Synced() && n in t.m
      ensures c == t.m[n].Kid(d)
    {
      assert Holds(n, t.m[n]);
      c := if d then n.right else n.left;
    }

    method Parent(n: Node<V>) returns (p: Node<V>)
      requires Synced() && n in t.m
      ensures p == t.m[n].parent
    {
      assert Holds(n, t.m[n]);
      p := n.parent;
    }

    method HandOverLinks(node: Node<V>, dir: bool, child: Node<V>, inner: Node<V>, parent: Node<V>)
      requires Synced() && node in t.m && child in t.m && (inner == sentinel || inner in t.m)
      modifies this`t, nodes`parent, node`left, node`right
      ensures Synced() && t == old(t).(m := HandOver(old(t.m), sentinel, node, dir, child, inner, parent))
    {
      SetKid(node, !dir, inner);
      if inner != sentinel {
        SetParent(inner, node);
      }
      SetParent(child, parent);
    }

    method ReplaceChild(node: Node<V>, child: Node<V>, parent: Node<V>)
      requires Synced() && (parent == sentinel || parent in t.m)
      modifies this`t, this`root, nodes`left, nodes`right
      ensures Synced()
      ensures t == old(t).(m := Replace(old(t.m), sentinel, node, child, parent), root := if parent == sentinel
          then child else old(t.root))
    {
      if parent != sentinel {
        var right := Kid(parent, true);
        SetKid(parent, node == right, child);
      } else {
        root := child;
        t := t.(root := child);
      }
    }

    method AdoptChild(node: Node<V>, dir: bool, child: Node<V>)
      requires Synced() && node in t.m && child in t.m
      modifies this`t, child`left, child`right, node`parent
      ensures Synced() && t == old(t).(m := Adopt(old(t.m), node, dir, child))
    {
      SetKid(child, dir, node);
      SetParent(node, child);
    }

    method RotateLinks(node: Node<V>, dir: bool)
      requires Synced() && Pivot(t, node, dir)
      modifies this`t, this`root, nodes`parent, nodes`left, nodes`right
      ensures Synced() && t == Rotated(old(t), node, dir)
    {
      ghost var t0 := t;
      var child := Kid(node, !dir);
      var inner := Kid(child, dir);
      var parent := Parent(node);
      HandOverLinks(node, dir, child, inner, parent);
      ReplaceChild(node, child, parent);
      AdoptChild(node, dir, child);
      SetDesc(Rotated(t0, node, dir).desc);
    }

    /** cc_omap_rotate */
    method Rotate(node: Node<V>, dir: bool)
      requires Synced() && CanRotate(t, Key(), node, dir)
      modifies this`t, this`root, nodes`parent, nodes`left, nodes`right
      ensures Synced() && Shape(t, Key())
      ensures Pivot(old(t), node, dir) && t == Rotated(old(t), node, dir) && IsRotation(old(t), t, node, dir)
    {
      RotateKeepsShape(t, Key(), node, dir);
      RotateLinks(node, dir);
    }

    method Red(c: Node<V>) returns (r: bool)
      requires Synced() && (c == sentinel || c in t.m)
      ensures r == IsRed(t, c)
    {
      if c != sentinel {
        assert Holds(c, t.m[c]);
      }
      r := c.isRed;
    }

    ghost method SetHeights(heights: map<Node<V>, nat>)
      requires Synced()
      modifies this`h
      ensures Synced() && h == heights
    {
      h := heights;
    }

    method PaintTwo(first: Node<V>, red1: bool, second: Node<V>, red2: bool)
      requires Synced() && first in t.m && second in t.m
      modifies this`t, nodes`isRed
      ensures Synced() && t == Painted(Painted(old(t), first, red1), second, red2)
    {
      SetRed(first, red1);
      SetRed(second, red2);
    }

    method PaintThree(first: Node<V>, red1: bool, second: Node<V>, red2: bool, third: Node<V>, red3: bool)
      requires Synced() && first in t.m && second in t.m && third in t.m
      modifies this`t, nodes`isRed
      ensures Synced() && t == Painted(Painted(Painted(old(t), first, red1), second, red2), third, red3)
    {
      PaintTwo(first, red1, second, red2);
      SetRed(third, red3);
    }

    /** Parent and grandparent swap colours, and the grandparent turns down. */
    method Turn(parent: Node<V>, grand: Node<V>, dir: bool)
      requires Synced() && CanTurn(t, parent, grand, dir)
      modifies this`t, this`root, nodes`isRed, nodes`parent, nodes`left, nodes`right
      ensures Synced() && t == Turned(old(t), parent, grand, dir)
    {
      PaintTwo(parent, false, grand, true);
      RotateLinks(grand, dir);
    }

    method TurnUp(node: Node<V>, parent: Node<V>, grand: Node<V>, dir: bool) returns (next: Node<V>)
      requires Synced() && node in t.m && parent in t.m && grand in t.m
      requires if node == t.m[parent].Kid(dir) then CanFixInner(t, node, parent, grand, dir)
          else CanTurn(t, parent, grand, dir)
      modifies this`t, this`root, nodes`isRed, nodes`parent, nodes`left, nodes`right
      ensures Synced()
      ensures Fix(t, h, next) == if node == old(t).m[parent].Kid(dir)
          then Fix(Turned(Rotated(old(t), parent, !dir), node, grand, dir), h, parent)
                                 else Fix(Turned(old(t), parent, grand, dir), h, node)
    {
      var inner := Kid(parent, dir);
      next := node;
      if next == inner {
        next := parent;
        RotateLinks(next, !dir);
        Turn(node, grand, dir);
      } else {
        Turn(parent, grand, dir);
      }
    }

    method Uncle(parent: Node<V>, grand: Node<V>) returns (dir: bool, uncle: Node<V>, red: bool)
      requires Synced() && grand in t.m && (forall e :: t.m[grand].Kid(e) == t.nil || t.m[grand].Kid(e) in t.m)
      ensures dir == (parent == t.m[grand].left) && uncle == t.m[grand].Kid(dir) && red == IsRed(t, uncle)
    {
      var first := Kid(grand, false);
      dir := parent == first;
      uncle := Kid(grand, dir);
      red := Red(uncle);
    }

    method RecolourUncle(parent: Node<V>, uncle: Node<V>, grand: Node<V>, ghost f: Fix<Node<V>>)
      requires Synced() && parent in t.m && uncle in t.m && grand in t.m && grand in h
      requires f == Fix(Painted(Painted(Painted(t, parent, false), uncle, false), grand, true),
          h[grand := h[grand] + 1], grand)
      modifies this`t, this`h, nodes`isRed
      ensures Synced() && f == Fix(t, h, grand)
    {
      SetHeights(h[grand := h[grand] + 1]);
      PaintThree(parent, false, uncle, false, grand, true);
    }

    method FixRedUncle(node: Node<V>, parent: Node<V>, uncle: Node<V>, grand: Node<V>)
      requires Synced() && CanFix(t, h, node, parent, grand) && uncle == t.m[grand].Kid(parent == t.m[grand].left)
          && IsRed(t, uncle)
      modifies this`t, this`h, nodes`isRed
      ensures Synced() && InsertNext(old(t), old(h), node, parent, grand) == Fix(t, h, grand)
    {
      NextRedUncleIs(t, h, node, parent, uncle, grand);
      RecolourUncle(parent, uncle, grand, InsertNext(t, h, node, parent, grand));
    }

    method FixBlackUncle(node: Node<V>, parent: Node<V>, uncle: Node<V>, grand: Node<V>, dir: bool)
        returns (next: Node<V>)
      requires Synced() && CanFix(t, h, node, parent, grand) && dir == (parent == t.m[grand].left)
      requires uncle == t.m[grand].Kid(dir) && !IsRed(t, uncle)
      modifies this`t, this`root, nodes`isRed, nodes`parent, nodes`left, nodes`right
      ensures Synced() && InsertNext(old(t), h, node, parent, grand) == Fix(t, h, next)
    {
      NextBlackUncleIs(t, h, node, parent, uncle, grand);
      next := TurnUp(node, parent, grand, dir);
    }

    /** One turn of the loop below. */
    method FixInsertStep(node: Node<V>, parent: Node<V>, grand: Node<V>) returns (next: Node<V>)
      requires Synced() && CanFix(t, h, node, parent, grand)
      modifies this`t, this`h, this`root, nodes`isRed, nodes`parent, nodes`left, nodes`right
      ensures Synced() && InsertNext(old(t), old(h), node, parent, grand) == Fix(t, h, next)
    {
      var dir, uncle, red := Uncle(parent, grand);
      if red {
        FixRedUncle(node, parent, uncle, grand);
        next := grand;
      } else {
        next := FixBlackUncle(node, parent, uncle, grand, dir);
      }
    }

    method ParentIsRed(node: Node<V>) returns (r: bool)
      requires Synced() && InsertState(t, Key(), h, node)
      ensures r == MustFix(t, node)
    {
      assert Linked(t, node);
      if node == root {
        r := false;
      } else {
        var parent := Parent(node);
        r := Red(parent);
      }
    }

    /** A turn of the loop below, with what it keeps. */
    method FixInsertTurn(node: Node<V>) returns (next: Node<V>)
      requires Synced() && InsertState(t, Key(), h, node) && MustFix(t, node)
      modifies this`t, this`h, this`root, nodes`isRed, nodes`parent, nodes`left, nodes`right
      ensures Synced() && Nearer(Fix(t, h, next), Key(), old(t), node)
    {
      var parent := Parent(node);
      var grand := Parent(parent);
      InsertNextKeeps(t, Key(), h, node, parent, grand);
      next := FixInsertStep(node, parent, grand);
    }

    method FixInsertEnd(ghost node: Node<V>)
      requires Synced() && InsertState(t, Key(), h, node) && !MustFix(t, node)
      modifies this`t, nodes`isRed
      ensures Sound()
    {
      InsertDone(t, Key(), h, node);
      SetRed(root, false);
    }

    method FixInsertOnce(node: Node<V>) returns (next: Node<V>, again: bool)
      requires Synced() && InsertState(t, Key(), h, node) && MustFix(t, node)
      modifies this`t, this`h, this`root, nodes`isRed, nodes`parent, nodes`left, nodes`right
      ensures Synced() && Nearer(Fix(t, h, next), Key(), old(t), node) && again == MustFix(t, next)
    {
      next := FixInsertTurn(node);
      again := ParentIsRed(next);
    }

    /** cc_omap_post_insert_fixup */
    method FixInsert(newNode: Node<V>)
      requires Synced() && InsertState(t, Key(), h, newNode)
      modifies this`t, this`h, this`root, nodes`isRed, nodes`parent, nodes`left, nodes`right
      ensures Sound()
    {
      var node := newNode;
      var again := ParentIsRed(node);
      while again
        invariant Synced() && InsertState(t, Key(), h, node)
        invariant again == MustFix(t, node)
        decreases InsertMeasure(t, node)
      {
        node, again := FixInsertOnce(node);
      }
      FixInsertEnd(node);
    }

    /** What the descent for a key knows: where the key can still be, and the side of the parent that leads there. */
    ghost predicate Descent(key: int, node: Node<V>, parent: Node<V>, dir: bool)
      reads this
    {
      && Below(t, Key(), key, node) && (node == t.nil || (node in t.m && OnPath(t, Key(), key, node)))
      && if parent == t.nil then node == t.root
         else
           && parent in t.m && OnPath(t, Key(), key, parent)
           && t.m[parent].Kid(dir) == node && parent.key != key && dir == (parent.key < key)
    }

    lemma DescendStep(key: int, node: Node<V>, parent: Node<V>, dir: bool)
      requires Shape(t, Key()) && Descent(key, node, parent, dir) && node != t.nil && key != node.key
      ensures var next := t.m[node].Kid(node.key < key);
          Descent(key, next, node, node.key < key)
          && |t.Desc(next)| < |t.Desc(node)|
    {
      SearchStep(t, Key(), key, node);
    }

    /** The search loop of cc_omap_insert: the node with the key, or the place for it. */
    method Search(key: int) returns (node: Node<V>, parent: Node<V>, dir: bool)
      requires Synced() && Shape(t, Key())
      ensures Descent(key, node, parent, dir)
      ensures node != sentinel ==> node in nodes && node.key == key
    {
      SearchStart(t, Key(), key);
      node, parent, dir := root, sentinel, false;
      while node != sentinel && key != node.key
        invariant Descent(key, node, parent, dir)
        decreases |t.Desc(node)|
      {
        DescendStep(key, node, parent, dir);
        dir := node.key < key;
        parent := node;
        node := Kid(node, dir);
      }
    }

    /** The parent, or the root, takes the new node. */
    method LinkLeaf(x: Node<V>, parent: Node<V>, dir: bool)
      requires Synced() && (parent == sentinel || parent in t.m)
      modifies this`t, this`root, nodes`left, nodes`right
      ensures Synced() && t == LeafLinks(old(t), x, parent, dir)
    {
      if parent != sentinel {
        SetKid(parent, dir, x);
      } else {
        root := x;
        t := t.(root := x);
      }
    }

    /** The new node counts as one of the tree's. */
    ghost method Admit(x: Node<V>, l: Links<Node<V>>, heights: map<Node<V>, nat>, desc: map<Node<V>, set<Node<V>>>)
      requires Synced() && x != sentinel && Holds(x, l)
      modifies this`t, this`nodes, this`h
      ensures Synced() && nodes == old(nodes) + {x} && h == heights
      ensures t == old(t).(m := old(t.m)[x := l], desc := desc)
    {
      nodes := nodes + {x};
      h := heights;
      t := t.(m := t.m[x := l], desc := desc);
    }

    method AddLeaf(x: Node<V>, parent: Node<V>, dir: bool)
      requires Synced() && CanAddLeaf(t, Key(), x, parent, dir) && Holds(x, Links(true, parent, sentinel, sentinel))
      modifies this`t, this`nodes, this`h, this`root, nodes`left, nodes`right
      ensures Synced() && t == WithLeaf(old(t), x, parent, dir) && nodes == old(nodes) + {x} && h == old(h)[x := 0]
    {
      LeafLinksIs(t, x, parent, dir);
      ghost var t' := WithLeaf(t, x, parent, dir);
      LinkLeaf(x, parent, dir);
      Admit(x, Links(true, parent, sentinel, sentinel), h[x := 0], t'.desc);
    }

    lemma CanAdd(x: Node<V>, parent: Node<V>, dir: bool)
      requires Synced() && Shape(t, Key()) && Descent(x.key, sentinel, parent, dir) && x !in nodes && x != sentinel
      ensures CanAddLeaf(t, Key(), x, parent, dir)
      ensures parent == sentinel || parent in t.m
    {
    }

    method NewLeaf(key: int, val: V, parent: Node<V>, dir: bool) returns (x: Node<V>)
      requires Synced() && Shape(t, Key()) && Descent(key, sentinel, parent, dir)
      ensures Synced() && CanAddLeaf(t, Key(), x, parent, dir) && Holds(x, Links(true, parent, sentinel, sentinel))
      ensures fresh(x) && x.key == key && x.val == val
    {
      x := new Node(key, val, true, parent, sentinel, sentinel);
      CanAdd(x, parent, dir);
    }

    /** The new leaf is linked in and the tree balanced. */
    method AttachLeaf(x: Node<V>, parent: Node<V>, dir: bool)
      requires Sound() && CanAddLeaf(t, Key(), x, parent, dir) && Holds(x, Links(true, parent, sentinel, sentinel))
      modifies this`t, this`h, this`nodes, this`root, nodes`isRed, nodes`parent, nodes`left, nodes`right
      ensures Synced() && InsertState(t, Key(), h, x) && nodes == old(nodes) + {x}
    {
      AddLeafState(t, Key(), h, x, parent, dir);
      AddLeaf(x, parent, dir);
    }

    method InsertLeaf(x: Node<V>, parent: Node<V>, dir: bool)
      requires Sound() && CanAddLeaf(t, Key(), x, parent, dir) && Holds(x, Links(true, parent, sentinel, sentinel))
      modifies this`t, this`h, this`nodes, this`root, nodes`isRed, nodes`parent, nodes`left, nodes`right, x`isRed,
          x`parent, x`left, x`right
      ensures Sound() && nodes == old(nodes) + {x} && |nodes| == |old(nodes)| + 1
    {
      AttachLeaf(x, parent, dir);
      FixInsert(x);
    }

    method SetSize(n: nat)
      requires Synced()
      modifies this`size
      ensures Synced() && size == n
    {
      size := n;
    }

    method CountLeaf(x: Node<V>, parent: Node<V>, dir: bool)
      requires Sound() && size == |nodes| && CanAddLeaf(t, Key(), x, parent, dir)
          && Holds(x, Links(true, parent, sentinel, sentinel))
      modifies this`t, this`h, this`nodes, this`size, this`root, nodes`isRed, nodes`parent, nodes`left, nodes`right,
          x`isRed, x`parent, x`left, x`right
      ensures Sound() && size == |nodes| && nodes == old(nodes) + {x}
    {
      InsertLeaf(x, parent, dir);
      SetSize(size + 1);
    }

    /** A node for a key that the descent did not find. */
    method InsertNode(key: int, val: V, parent: Node<V>, dir: bool) returns (x: Node<V>)
      requires Sound() && size == |nodes| && Descent(key, sentinel, parent, dir)
      modifies this`t, this`h, this`nodes, this`size, this`root, nodes`isRed, nodes`parent, nodes`left, nodes`right
      ensures Sound() && size == |nodes| && fresh(x) && nodes == old(nodes) + {x}
      ensures x.key == key && x.val == val
    {
      x := NewLeaf(key, val, parent, dir);
      CountLeaf(x, parent, dir);
    }

    ghost predicate KeysDistinct(s: set<Node<V>>) {
      forall a, b :: a in s && b in s && a.key == b.key ==> a == b
    }

    static ghost function KeysOf(s: set<Node<V>>): set<int> {
      set n | n in s :: n.key
    }

    lemma {:induction false} ImageSize(s: set<Node<V>>)
      requires KeysDistinct(s)
      ensures |KeysOf(s)| == |s|
      decreases |s|
    {
      if s == {} {
        assert KeysOf(s) == {};
      } else {
        var x :| x in s;
        ImageSize(s - {x});
        assert KeysOf(s) == KeysOf(s - {x}) + {x.key};
      }
    }

    method SetVal(n: Node<V>, val: V)
      requires Synced() && n in nodes
      modifies n`val
      ensures Synced() && n.val == val
    {
      n.val := val;
      forall k | k in nodes ensures Holds(k, t.m[k]) {
        assert old(Holds(k, t.m[k]));
      }
    }

    static lemma OverwriteAgrees(s: set<Node<V>>, node: Node<V>, was: map<int, V>)
      requires node in s && node.key in was && forall n :: n in s && n.key == node.key ==> n == node
      requires forall n {:trigger AgreesAt(n, was)} :: n in s && n != node ==> AgreesAt(n, was)
      requires forall k {:trigger HasKey(s, k)} :: k in was ==> HasKey(s, k)
      ensures Agrees(s, was[node.key := node.val])
    {
      forall n | n in s ensures AgreesAt(n, was[node.key := node.val]) {
        if n != node {
          assert AgreesAt(n, was);
        }
      }
    }

    static lemma AddedAgrees(node: Node<V>, before: set<Node<V>>, was: map<int, V>)
      requires Agrees(before, was) && node.key !in was
      ensures Agrees(before + {node}, was[node.key := node.val])
    {
      forall n | n in before + {node} ensures AgreesAt(n, was[node.key := node.val]) {
        if n != node {
          assert AgreesAt(n, was);
        }
      }
      forall k | k in was[node.key := node.val] ensures HasKey(before + {node}, k) {
        if k != node.key {
          assert HasKey(before, k);
          var n :| n in before && n.key == k;
          assert n in before + {node};
        } else {
          assert node in before + {node};
        }
      }
    }

    /** `size` counts the pairs of the map. */
    lemma SizeOfContents()
      requires Valid()
      ensures |contents| == size
    {
      forall a, b | a in nodes && b in nodes && a.key == b.key ensures a == b {
        OneNode(a, b);
      }
      ImageSize(nodes);
      assert contents.Keys == KeysOf(nodes) by {
        forall k | k in contents ensures k in KeysOf(nodes) {
          assert HasKey(nodes, k);
        }
        forall k | k in KeysOf(nodes) ensures k in contents {
          var n :| n in nodes && n.key == k;
          assert AgreesAt(n, contents);
        }
      }
    }

    lemma OneNode(a: Node<V>, b: Node<V>)
      requires Synced() && Shape(t, Key()) && a in nodes && b in nodes && a.key == b.key
      ensures a == b
    {
      if a != b {
        KeysDiffer(t, Key(), a, b);
      }
    }

    lemma NotFound(key: int)
      requires Synced() && Below(t, Key(), key, t.nil)
      ensures !HasKey(nodes, key)
    {
    }

    /** cc_omap_get */
    method Get(key: int) returns (r: Option<Node<V>>)
      requires Valid()
      ensures r.Some? <==> key in contents
      ensures r.Some? ==> r.value in nodes && r.value.key == key && r.value.val == contents[key]
    {
      SearchStart(t, Key(), key);
      var node := root;
      while node != sentinel
        invariant Below(t, Key(), key, node)
        invariant node == t.nil || (node in t.m && OnPath(t, Key(), key, node))
        decreases |t.Desc(node)|
      {
        if key == node.key {
          assert AgreesAt(node, contents);
          return Some(node);
        }
        SearchStep(t, Key(), key, node);
        node := Kid(node, node.key < key);
      }
      NotFound(key);
      return None;
    }

    method Overwrite(node: Node<V>, val: V)
      requires Valid() && node in nodes
      modifies node`val, this`contents
      ensures Valid() && contents == old(contents)[node.key := val]
    {
      forall n | n in nodes && n.key == node.key ensures n == node {
        OneNode(n, node);
      }
      assert AgreesAt(node, contents);
      SetVal(node, val);
      forall n | n in nodes && n != node ensures AgreesAt(n, contents) {
        assert old(AgreesAt(n, contents));
      }
      OverwriteAgrees(nodes, node, contents);
      contents := contents[node.key := val];
    }

    /** A new node, and what the others hold stays. */
    method InsertKept(key: int, val: V, parent: Node<V>, dir: bool) returns (x: Node<V>)
      requires Sound() && size == |nodes| && Descent(key, sentinel, parent, dir) && Agrees(nodes, contents)
          && key !in contents
      modifies this`t, this`h, this`nodes, this`size, this`root, nodes`isRed, nodes`parent, nodes`left, nodes`right
      ensures Sound() && size == |nodes| && fresh(x) && nodes == old(nodes) + {x} && x.key == key
      ensures Agrees(nodes, contents[key := val])
    {
      ghost var before := nodes;
      x := InsertNode(key, val, parent, dir);
      forall n | n in before ensures AgreesAt(n, contents) {
        assert old(AgreesAt(n, contents));
      }
      AddedAgrees(x, before, contents);
    }

    method InsertNew(key: int, val: V, parent: Node<V>, dir: bool) returns (x: Node<V>)
      requires Valid() && Descent(key, sentinel, parent, dir)
      modifies this`t, this`h, this`nodes, this`size, this`root, this`contents, nodes`isRed, nodes`parent,
          nodes`left, nodes`right
      ensures Valid() && fresh(x) && nodes == old(nodes) + {x} && x.key == key
      ensures key !in old(contents) && contents == old(contents)[key := val]
    {
      NotFound(key);
      x := InsertKept(key, val, parent, dir);
      SetContents(contents[key := val]);
    }

    ghost method SetContents(m: map<int, V>)
      requires Sound() && Agrees(nodes, m)
      modifies this`contents
      ensures Sound() && Agrees(nodes, m) && contents == m
    {
      contents := m;
    }

    /** cc_omap_insert; `room` says whether a node could be allocated. */
    method Insert(key: int, val: V, replace: bool, room: bool) returns (r: Option<Node<V>>)
      requires Valid()
      modifies this, nodes
      ensures Valid()
      ensures r.None? <==> key !in old(contents) && !room
      ensures r.Some? ==> r.value in nodes && r.value.key == key
      ensures contents == if r.None? || (key in old(contents) && !replace) then old(contents)
          else old(contents)[key := val]
      ensures nodes == if r.None? || key in old(contents) then old(nodes) else old(nodes) + {r.value}
      ensures r.Some? && key !in old(contents) ==> fresh(r.value)
    {
      var node, parent, dir := Search(key);
      if node != sentinel {
        assert AgreesAt(node, contents);
        if replace {
          Overwrite(node, val);
        }
        return Some(node);
      }
      NotFound(key);
      if !room {
        return None;
      }
      node := InsertNew(key, val, parent, dir);
      return Some(node);
    }

    /** The sibling is red: it turns up, and the new sibling is black. */
    method BlackenSibling(node: Node<V>, parent: Node<V>, dir: bool) returns (sibling: Node<V>)
      requires Synced() && EraseState(t, Key(), h, node, parent, !dir) && MustRebalance(t, node)
      modifies this`t, this`root, nodes`isRed, nodes`parent, nodes`left, nodes`right
      ensures Synced() && EraseState(t, Key(), h, node, parent, !dir) && MustRebalance(t, node)
      ensures parent in t.m && sibling == t.m[parent].Kid(dir) && sibling in t.m && !IsRed(t, sibling)
      ensures t == old(t) || t.m[parent].red
    {
      EraseNode(t, Key(), h, node, parent, !dir);
      sibling := Kid(parent, dir);
      var red := Red(sibling);
      if red {
        RedSiblingStep(t, Key(), h, node, parent, sibling, !dir);
        Turn(sibling, parent, !dir);
        EraseNode(t, Key(), h, node, parent, !dir);
        sibling := Kid(parent, dir);
      }
    }

    method Shade(n: Node<V>, ghost heights: map<Node<V>, nat>)
      requires Synced() && n in t.m
      modifies this`t, this`h, n`isRed
      ensures Synced() && t == Painted(old(t), n, true) && h == heights
    {
      SetRed(n, true);
      SetHeights(heights);
    }

    /** The sibling's children are black. */
    method ReddenSibling(node: Node<V>, parent: Node<V>, sibling: Node<V>, dir: bool)
        returns (up: Node<V>, ghost side: bool)
      requires Synced() && EraseState(t, Key(), h, node, parent, !dir) && MustRebalance(t, node)
      requires parent in t.m && sibling == t.m[parent].Kid(dir) && sibling in t.m && !IsRed(t, sibling)
      requires !IsRed(t, t.m[sibling].left) && !IsRed(t, t.m[sibling].right)
      modifies this`t, this`h, nodes`isRed
      ensures Synced() && EraseState(t, Key(), h, parent, up, side)
      ensures EraseMeasure(t, parent) < EraseMeasure(old(t), node)
      ensures old(t.m[parent].red) ==> EraseMeasure(t, parent) == 0
    {
      hide EraseState, MustRebalance, EraseMeasure;
      side := BlackSiblingStep(t, Key(), h, node, parent, sibling, !dir);
      up := Parent(parent);
      Shade(sibling, h[parent := (h[parent] - 1) as nat]);
    }

    /** The farther child of the sibling is not red, so the nearer one is: it turns up. */
    method RaiseNephew(node: Node<V>, parent: Node<V>, sibling: Node<V>, dir: bool) returns (raised: Node<V>)
      requires Synced() && EraseState(t, Key(), h, node, parent, !dir) && MustRebalance(t, node)
      requires parent in t.m && sibling == t.m[parent].Kid(dir) && sibling in t.m && !IsRed(t, sibling)
      requires !IsRed(t, t.m[sibling].Kid(dir)) && IsRed(t, t.m[sibling].Kid(!dir))
      modifies this`t, this`root, nodes`isRed, nodes`parent, nodes`left, nodes`right
      ensures Synced() && EraseState(t, Key(), h, node, parent, !dir) && MustRebalance(t, node)
      ensures parent in t.m && raised == t.m[parent].Kid(dir) && raised in t.m && !IsRed(t, raised)
          && IsRed(t, t.m[raised].Kid(dir))
    {
      var inner := Kid(sibling, !dir);
      InnerNephewStep(t, Key(), h, node, parent, sibling, inner, !dir);
      Turn(inner, sibling, dir);
      EraseNode(t, Key(), h, node, parent, !dir);
      raised := Kid(parent, dir);
    }

    method SettleLinks(parent: Node<V>, sibling: Node<V>, outer: Node<V>, dir: bool)
      requires Synced() && CanSettle(t, parent, sibling, outer, dir)
      modifies this`t, this`root, nodes`isRed, nodes`parent, nodes`left, nodes`right
      ensures Synced() && t == Settled(old(t), parent, sibling, outer, dir)
    {
      assert Holds(parent, t.m[parent]);
      PaintThree(sibling, parent.isRed, parent, false, outer, false);
      RotateLinks(parent, dir);
    }

    /** The farther child of the sibling is red: one rotation ends the loop. */
    method Settle(node: Node<V>, parent: Node<V>, sibling: Node<V>, dir: bool)
      requires Synced() && EraseState(t, Key(), h, node, parent, !dir) && MustRebalance(t, node)
      requires parent in t.m && sibling == t.m[parent].Kid(dir) && sibling in t.m && !IsRed(t, sibling)
          && IsRed(t, t.m[sibling].Kid(dir))
      modifies this`t, this`h, this`root, nodes`isRed, nodes`parent, nodes`left, nodes`right
      ensures Synced() && EraseState(t, Key(), h, root, parent, !dir)
    {
      var outer := Kid(sibling, dir);
      OuterNephewStep(t, Key(), h, node, parent, sibling, outer, !dir);
      SetHeights(OuterHeights(h, parent, sibling));
      SettleLinks(parent, sibling, outer, !dir);
    }

    /** One of the sibling's children is red. */
    method SettleRaised(node: Node<V>, parent: Node<V>, sibling: Node<V>, dir: bool, outerRed: bool)
      requires Synced() && EraseState(t, Key(), h, node, parent, !dir) && MustRebalance(t, node)
      requires parent in t.m && sibling == t.m[parent].Kid(dir) && sibling in t.m && !IsRed(t, sibling)
      requires outerRed == IsRed(t, t.m[sibling].Kid(dir)) && (outerRed || IsRed(t, t.m[sibling].Kid(!dir)))
      modifies this`t, this`h, this`root, nodes`isRed, nodes`parent, nodes`left, nodes`right
      ensures Synced() && EraseState(t, Key(), h, root, parent, !dir)
    {
      var raised := sibling;
      if !outerRed {
        raised := RaiseNephew(node, parent, sibling, dir);
      }
      Settle(node, parent, raised, dir);
    }

    method Nephews(node: Node<V>, parent: Node<V>, sibling: Node<V>, dir: bool) returns (innerRed: bool, outerRed: bool)
      requires Synced() && EraseState(t, Key(), h, node, parent, !dir) && MustRebalance(t, node)
      requires parent in t.m && sibling == t.m[parent].Kid(dir) && sibling in t.m
      ensures innerRed == IsRed(t, t.m[sibling].Kid(!dir)) && outerRed == IsRed(t, t.m[sibling].Kid(dir))
      ensures EraseMeasure(t, node) > 0
    {
      EraseNode(t, Key(), h, node, parent, !dir);
      var inner := Kid(sibling, !dir);
      var outer := Kid(sibling, dir);
      innerRed := Red(inner);
      outerRed := Red(outer);
    }

    /** The sibling is black. */
    method RebalanceBlack(node: Node<V>, parent: Node<V>, sibling: Node<V>, dir: bool)
        returns (next: Node<V>, up: Node<V>, ghost side: bool)
      requires Synced() && EraseState(t, Key(), h, node, parent, !dir) && MustRebalance(t, node)
      requires parent in t.m && sibling == t.m[parent].Kid(dir) && sibling in t.m && !IsRed(t, sibling)
      modifies this`t, this`h, this`root, nodes`isRed, nodes`parent, nodes`left, nodes`right
      ensures Synced() && EraseState(t, Key(), h, next, up, side)
      ensures EraseMeasure(t, next) < EraseMeasure(old(t), node)
      ensures old(t.m[parent].red) ==> EraseMeasure(t, next) == 0
    {
      var innerRed, outerRed := Nephews(node, parent, sibling, dir);
      if !innerRed && !outerRed {
        up, side := ReddenSibling(node, parent, sibling, dir);
        next := parent;
      } else {
        SettleRaised(node, parent, sibling, dir, outerRed);
        next, up, side := root, parent, !dir;
      }
    }

    /** One turn of the loop below. */
    method Rebalance(node: Node<V>, parent: Node<V>, ghost s: bool)
        returns (next: Node<V>, up: Node<V>, ghost side: bool)
      requires Synced() && EraseState(t, Key(), h, node, parent, s) && MustRebalance(t, node)
      modifies this`t, this`h, this`root, nodes`isRed, nodes`parent, nodes`left, nodes`right
      ensures Synced() && EraseState(t, Key(), h, next, up, side)
      ensures EraseMeasure(t, next) < EraseMeasure(old(t), node)
    {
      EraseNode(t, Key(), h, node, parent, s);
      var left := Kid(parent, false);
      var dir := node == left;
      var sibling := BlackenSibling(node, parent, dir);
      next, up, side := RebalanceBlack(node, parent, sibling, dir);
    }

    method FixEraseEnd(node: Node<V>, ghost parent: Node<V>, ghost s: bool)
      requires Synced() && EraseState(t, Key(), h, node, parent, s) && !MustRebalance(t, node)
      modifies this`t, nodes`isRed
      ensures Sound()
    {
      EraseDone(t, Key(), h, node, parent, s);
      if node != sentinel {
        SetRed(node, false);
      }
    }

    /** cc_omap_post_erase_fixup; `s` is the side of the parent that the node is on. */
    method FixErase(node0: Node<V>, parent0: Node<V>, ghost s0: bool)
      requires Synced() && EraseState(t, Key(), h, node0, parent0, s0)
      modifies this`t, this`h, this`root, nodes`isRed, nodes`parent, nodes`left, nodes`right
      ensures Sound()
    {
      var node, parent := node0, parent0;
      ghost var s := s0;
      EraseNode(t, Key(), h, node, parent, s);
      var red := Red(node);
      while node != root && !red
        invariant Synced() && EraseState(t, Key(), h, node, parent, s)
        invariant red == IsRed(t, node)
        decreases EraseMeasure(t, node)
      {
        node, parent, s := Rebalance(node, parent, s);
        EraseNode(t, Key(), h, node, parent, s);
        red := Red(node);
      }
      FixEraseEnd(node, parent, s);
    }

    /** The node to unlink: the erased one, or its in-order successor if it has two children. */
    method ToDetach(node: Node<V>) returns (y: Node<V>)
      requires Synced() && Shape(t, Key()) && node in t.m
      ensures CanDetach(t, Key(), y)
      ensures y == node <==> t.m[node].left == t.nil || t.m[node].right == t.nil
      ensures y != node ==> IsSuccessor(t, Key(), node, y) && Adjacent(nodes - {y}, Key(), node, y)
    {
      var left := Kid(node, false);
      var right := Kid(node, true);
      if left == sentinel || right == sentinel {
        return node;
      }
      SuccessorStart(t, Key(), node);
      y := right;
      left := Kid(y, false);
      while left != sentinel
        invariant y in t.m && left == t.m[y].left && Leftmost(t, Key(), node, y) && node !in t.Desc(y)
        decreases |t.Desc(y)|
      {
        SuccessorStep(t, Key(), node, y);
        y := left;
        left := Kid(y, false);
      }
      SuccessorFound(t, Key(), node, y);
    }

    method Bridge(y: Node<V>, child: Node<V>, parent: Node<V>)
      requires Synced() && (child == sentinel || child in t.m) && (parent == sentinel || parent in t.m)
      modifies this`t, this`root, nodes`parent, nodes`left, nodes`right
      ensures Synced() && t == Bridged(old(t), y, child, parent)
    {
      if child != sentinel {
        SetParent(child, parent);
      }
      ReplaceChild(y, child, parent);
    }

    ghost method Expel(y: Node<V>)
      requires Synced() && y in nodes
      modifies this`t, this`h, this`nodes
      ensures Synced() && t == Without(old(t), y) && h == old(h) - {y} && nodes == old(nodes) - {y}
      ensures Holds(y, old(t.m[y]))
    {
      assert Holds(y, t.m[y]);
      h := h - {y};
      nodes := nodes - {y};
      t := Without(t, y);
      forall k | k in nodes ensures Holds(k, t.m[k]) {
        assert old(Holds(k, t.m[k]));
      }
    }

    /** The child of y takes the place of y. */
    method Detach(y: Node<V>, child: Node<V>, parent: Node<V>)
      requires Synced() && CanDetach(t, Key(), y) && parent == t.m[y].parent
      requires child == if t.m[y].left == t.nil then t.m[y].right else t.m[y].left
      modifies this`t, this`h, this`nodes, this`root, nodes`parent, nodes`left, nodes`right
      ensures Synced() && IsDetached(old(t), t, y, child) && nodes == old(nodes) - {y} && h == old(h) - {y}
      ensures Holds(y, old(t.m[y]))
    {
      DetachedIs(t, Key(), y, child, parent);
      Bridge(y, child, parent);
      Expel(y);
    }

    method CopyLinks(y: Node<V>, node: Node<V>)
      requires Synced() && node in t.m && y !in nodes && y != sentinel
      modifies y`parent, y`left, y`right
      ensures Synced() && y.parent == t.m[node].parent && y.left == t.m[node].left && y.right == t.m[node].right
    {
      assert Holds(node, t.m[node]);
      y.parent := node.parent;
      y.left := node.left;
      y.right := node.right;
      forall k | k in nodes ensures Holds(k, t.m[k]) {
        assert old(Holds(k, t.m[k]));
      }
    }

    /** The nodes next to the erased one point to y. */
    method Relink(node: Node<V>, y: Node<V>, ghost l: Links<Node<V>>)
      requires Synced() && y !in nodes && y.parent == l.parent && y.left == l.left && y.right == l.right
      requires (l.parent == t.nil || l.parent in t.m) && (l.left == t.nil || l.left in t.m)
          && (l.right == t.nil || l.right in t.m)
      modifies this`t, this`root, nodes`parent, nodes`left, nodes`right
      ensures Synced() && t == Relinked(old(t), node, y, l)
    {
      ReplaceChild(node, y, y.parent);
      if y.left != sentinel {
        SetParent(y.left, y);
      }
      if y.right != sentinel {
        SetParent(y.right, y);
      }
    }

    method CopyColour(y: Node<V>, node: Node<V>)
      requires Synced() && node in t.m && y !in nodes && y != sentinel
      modifies y`isRed
      ensures Synced() && y.isRed == t.m[node].red
    {
      assert Holds(node, t.m[node]);
      y.isRed := node.isRed;
      forall k | k in nodes ensures Holds(k, t.m[k]) {
        assert old(Holds(k, t.m[k]));
      }
    }

    ghost method Exchange(node: Node<V>, y: Node<V>, l: Links<Node<V>>, desc: map<Node<V>, set<Node<V>>>,
        heights: map<Node<V>, nat>)
      requires Synced() && node in nodes && y !in nodes && y != sentinel && Holds(y, l)
      modifies this`t, this`h, this`nodes
      ensures Synced() && t == Exchanged(old(t), node, y, l, desc) && h == heights && nodes == old(nodes) - {node} + {y}
    {
      h := heights;
      nodes := nodes - {node} + {y};
      t := Exchanged(t, node, y, l, desc);
      forall k | k in nodes ensures Holds(k, t.m[k]) {
        if k != y {
          assert old(Holds(k, t.m[k]));
        }
      }
    }

    /** y takes the place and the colour of the erased node. */
    method SupplantLinks(node: Node<V>, y: Node<V>, ghost l: Links<Node<V>>)
      requires Synced() && node in t.m && y !in nodes && y != sentinel && l == t.m[node]
      requires (l.parent == t.nil || l.parent in t.m) && (l.left == t.nil || l.left in t.m)
          && (l.right == t.nil || l.right in t.m)
      requires node in Relinked(t, node, y, l).m && Relinked(t, node, y, l).m[node] == l
      modifies this`t, this`root, nodes`parent, nodes`left, nodes`right, y`isRed, y`parent, y`left, y`right
      ensures Synced() && t == Relinked(old(t), node, y, l) && Holds(y, l)
    {
      CopyLinks(y, node);
      Relink(node, y, l);
      CopyColour(y, node);
    }

    method SupplantNode(node: Node<V>, y: Node<V>)
      requires Sound() && node in nodes && y !in nodes && y != sentinel && Adjacent(nodes, Key(), node, y)
      modifies this`t, this`h, this`nodes, this`root, nodes`parent, nodes`left, nodes`right, y`isRed, y`parent,
          y`left, y`right
      ensures Sound() && nodes == old(nodes) - {node} + {y}
    {
      ghost var l := t.m[node];
      SupplantStep(t, Key(), h, node, y, l);
      ghost var desc := RenamedDesc(t, node, y);
      SupplantLinks(node, y, l);
      Exchange(node, y, l, desc, SupplantedHeights(h, node, y));
    }

    /** y is unlinked and the tree balanced again. */
    method Unlink(y: Node<V>)
      requires Sound() && CanDetach(t, Key(), y)
      modifies this`t, this`h, this`nodes, this`root, nodes`isRed, nodes`parent, nodes`left, nodes`right
      ensures Sound() && nodes == old(nodes) - {y}
    {
      ghost var t0, h0 := t, h;
      var left := Kid(y, false);
      var child := Kid(y, left == sentinel);
      var parent := Parent(y);
      Detach(y, child, parent);
      if y.isRed {
        DetachRed(t0, t, Key(), h0, y, child);
      } else {
        ghost var side := parent in t0.m && t0.m[parent].right == y;
        DetachBlackNode(t0, t, Key(), h0, y, child, parent, side);
        FixErase(child, y.parent, side);
      }
    }

    static lemma InsteadOf(s: set<Node<V>>, node: Node<V>, y: Node<V>)
      requires y in s
      ensures y != node ==> s - {y} - {node} + {y} == s - {node}
    {
    }

    method EraseLinks(node: Node<V>)
      requires Sound() && node in nodes
      modifies this`t, this`h, this`nodes, this`root, nodes`isRed, nodes`parent, nodes`left, nodes`right
      ensures Sound() && nodes == old(nodes) - {node}
    {
      var y := ToDetach(node);
      InsteadOf(nodes, node, y);
      Unlink(y);
      if y != node {
        SupplantNode(node, y);
      }
    }

    lemma ErasedAgrees(node: Node<V>)
      requires Valid() && node in nodes
      ensures Agrees(nodes - {node}, contents - {node.key})
    {
      forall n | n in nodes - {node} ensures AgreesAt(n, contents - {node.key}) {
        assert AgreesAt(n, contents);
        if n.key == node.key {
          OneNode(n, node);
        }
      }
      forall k | k in contents - {node.key} ensures HasKey(nodes - {node}, k) {
        assert HasKey(nodes, k);
        var n :| n in nodes && n.key == k;
        assert n in nodes - {node};
      }
    }

    /** The map without the node's pair, which only the node still holds. */
    ghost method Forget(node: Node<V>)
      requires Valid() && node in nodes
      modifies this`contents
      ensures Sound() && contents == old(contents) - {node.key} && Agrees(nodes - {node}, contents)
    {
      ErasedAgrees(node);
      contents := contents - {node.key};
    }

    /** The node leaves the tree, and what the other nodes hold stays. */
    method EraseKept(node: Node<V>)
      requires Sound() && node in nodes && Agrees(nodes - {node}, contents)
      modifies this`t, this`h, this`nodes, this`root, nodes`isRed, nodes`parent, nodes`left, nodes`right
      ensures Sound() && nodes == old(nodes) - {node} && Agrees(nodes, contents)
    {
      EraseLinks(node);
      forall n | n in nodes ensures AgreesAt(n, contents) {
        assert old(AgreesAt(n, contents));
      }
    }

    method Release(node: Node<V>)
      requires Valid() && node in nodes
      modifies this`t, this`h, this`nodes, this`root, this`contents, nodes`isRed, nodes`parent, nodes`left, nodes`right
      ensures Sound() && Agrees(nodes, contents)
      ensures nodes == old(nodes) - {node} && contents == old(contents) - {node.key}
    {
      hide Agrees, Shape, RedBlack;
      Forget(node);
      EraseKept(node);
    }

    method CountDown()
      requires Synced() && Agrees(nodes, contents) && size == |nodes| + 1
      modifies this`size
      ensures Synced() && Agrees(nodes, contents) && size == |nodes|
    {
      size := size - 1;
    }

    /** cc_omap_erase_raw: only this node leaves the map; all others stay the objects they are. */
    method EraseRaw(node: Node<V>)
      requires Valid() && node in nodes
      modifies this`t, this`h, this`nodes, this`root, this`size, this`contents, nodes`isRed, nodes`parent,
          nodes`left, nodes`right
      ensures Valid() && nodes == old(nodes) - {node} && contents == old(contents) - {node.key}
    {
      ghost var rest := nodes - {node};
      assert size == |rest| + 1;
      Release(node);
      CountDown();
    }

    lemma OthersStay(key: int, r: Option<Node<V>>)
      requires Valid() && (r.Some? <==> key in contents) && (r.Some? ==> r.value in nodes && r.value.key == key)
      ensures (set n | n in nodes && n.key != key) == if r.Some? then nodes - {r.value} else nodes
      ensures r.None? ==> contents == contents - {key}
    {
      forall n | n in nodes && n.key == key ensures r.Some? && n == r.value {
        assert AgreesAt(n, contents);
        OneNode(n, r.value);
      }
    }

    /** cc_omap_erase */
    method Erase(key: int) returns (erased: bool)
      requires Valid()
      modifies this`t, this`h, this`nodes, this`root, this`size, this`contents, nodes`isRed, nodes`parent,
          nodes`left, nodes`right
      ensures Valid() && erased == (key in old(contents)) && contents == old(contents) - {key}
      ensures nodes == set n | n in old(nodes) && n.key != key
    {
      var r := Get(key);
      OthersStay(key, r);
      if r.None? {
        return false;
      }
      EraseRaw(r.value);
      return true;
    }
  }
}
