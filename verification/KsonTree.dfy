/** kson: trees, their text, and the array of nodes that stands for a tree. */
module KsonTree {
  import opened Wrappers

  datatype Quote = NoQuote | SingleQuote | DoubleQuote

  datatype Tree = Leaf(key: Option<string>, quote: Quote, text: string) | Inner(key: Option<string>, brace: bool,
      children: Forest)

  datatype Forest = Empty | More(first: Tree, rest: Forest)

  datatype Kind = Unset | Text(quote: Quote) | Bracket | Brace

  /** What a node holds: a string, or none yet, or the indices of its children. */
  datatype Value = Str(text: Option<string>) | Children(ids: seq<int>)

  datatype Node = Node(key: Option<string>, kind: Kind, value: Value)

  function QuoteMark(q: Quote): string {
    match q
    case NoQuote => ""
    case SingleQuote => "'"
    case DoubleQuote => "\""
  }

  function Indent(depth: nat): string {
    if depth == 0 then "" else "  " + Indent(depth - 1)
  }

  function NewLine(depth: nat): string {
    "\n" + Indent(depth)
  }

  function FormatKey(key: Option<string>): string {
    match key
    case None => ""
    case Some(k) => "\"" + k + "\":"
  }

  function OpenMark(brace: bool): string {
    if brace then "{" else "["
  }

  function CloseMark(brace: bool): string {
    if brace then "}" else "]"
  }

  /** kson_format_recur */
  function Format(t: Tree, depth: nat): (r: string)
    ensures t.Inner? ==> r != ""
    decreases t, 1
  {
    FormatKey(t.key) + FormatValue(t, depth)
  }

  function FormatValue(t: Tree, depth: nat): (r: string)
    ensures t.Inner? ==> r != ""
    decreases t, 0
  {
    match t
    case Leaf(_, quote, text) => QuoteMark(quote) + text + QuoteMark(quote)
    case Inner(_, brace, children) =>
        OpenMark(brace) + FormatAll(children, true, depth) + Ending(children,
        depth) + CloseMark(brace)
  }

  function Ending(f: Forest, depth: nat): string {
    if f.Empty? then "" else NewLine(depth)
  }

  function Comma(first: bool): string {
    if first then "" else ","
  }

  function FormatAll(f: Forest, first: bool, depth: nat): string
    decreases f, 0
  {
    match f
    case Empty => ""
    case More(t, rest) => Comma(first) + NewLine(depth + 1) + Format(t, depth + 1) + FormatAll(rest, false, depth)
  }

  function Size(t: Tree): (n: nat)
    ensures n > 0
  {
    match t
    case Leaf(_, _, _) => 1
    case Inner(_, _, children) => 1 + SizeAll(children)
  }

  function SizeAll(f: Forest): nat {
    match f
    case Empty => 0
    case More(t, rest) => Size(t) + SizeAll(rest)
  }

  /** The indices of the roots of a forest whose nodes lie in preorder from i on. */
  function Roots(f: Forest, i: nat): (ids: seq<int>)
    ensures forall k :: 0 <= k < |ids| ==> i <= ids[k] < i + SizeAll(f)
  {
    match f
    case Empty => []
    case More(t, rest) => [i] + Roots(rest, i + Size(t))
  }

  function KindOf(brace: bool): Kind {
    if brace then Brace else Bracket
  }

  /** The nodes of a tree in preorder, the first at index i. */
  function Nodes(t: Tree, i: nat): (ns: seq<Node>)
    ensures |ns| == Size(t)
  {
    match t
    case Leaf(key, quote, text) => [Node(key, Text(quote), Str(Some(text)))]
    case Inner(key, brace,
        children) => [Node(key, KindOf(brace), Children(Roots(children, i + 1)))] + NodesAll(children, i + 1)
  }

  function NodesAll(f: Forest, i: nat): (ns: seq<Node>)
    ensures |ns| == SizeAll(f)
  {
    match f
    case Empty => []
    case More(t, rest) => Nodes(t, i) + NodesAll(rest, i + Size(t))
  }

  /** The node at index i is the root of t. */
  predicate Represents(nodes: seq<Node>, i: int, t: Tree)
    decreases t
  {
    && 0 <= i < |nodes| && nodes[i].key == t.key
    && match t
       case Leaf(_, quote, text) => nodes[i].kind == Text(quote) && nodes[i].value == Str(Some(text))
       case Inner(_, brace, children) =>
         nodes[i].kind == KindOf(brace) && nodes[i].value.Children?
             && RepresentsAll(nodes, nodes[i].value.ids, children)
  }

  predicate RepresentsAll(nodes: seq<Node>, ids: seq<int>, f: Forest)
    decreases f
  {
    match f
    case Empty => ids == []
    case More(t, rest) => ids != [] && Represents(nodes, ids[0], t) && RepresentsAll(nodes, ids[1..], rest)
  }

  /** A node is the root of at most one tree. */
  lemma {:induction false} OneTree(nodes: seq<Node>, i: int, t: Tree, u: Tree)
    requires Represents(nodes, i, t) && Represents(nodes, i, u)
    ensures t == u
    decreases t
  {
    if t.Inner? {
      OneForest(nodes, nodes[i].value.ids, t.children, u.children);
    }
  }

  lemma {:induction false} OneForest(nodes: seq<Node>, ids: seq<int>, f: Forest, g: Forest)
    requires RepresentsAll(nodes, ids, f) && RepresentsAll(nodes, ids, g)
    ensures f == g
    decreases f
  {
    if f.More? {
      OneTree(nodes, ids[0], f.first, g.first);
      OneForest(nodes, ids[1..], f.rest, g.rest);
    }
  }

  /** The nodes from i on are those of ns. */
  predicate Holds(nodes: seq<Node>, i: nat, ns: seq<Node>) {
    i + |ns| <= |nodes| && nodes[i..i + |ns|] == ns
  }

  lemma HoldsParts(nodes: seq<Node>, i: nat, a: seq<Node>, b: seq<Node>)
    requires Holds(nodes, i, a + b)
    ensures Holds(nodes, i, a) && Holds(nodes, i + |a|, b)
  {
    assert nodes[i..i + |a|] == (a + b)[..|a|];
    assert nodes[i + |a|..i + |a| + |b|] == (a + b)[|a|..];
  }

  /** The nodes of a tree in preorder stand for the tree. */
  lemma {:induction false} NodesRepresent(nodes: seq<Node>, i: nat, t: Tree)
    requires Holds(nodes, i, Nodes(t, i))
    ensures Represents(nodes, i, t)
    decreases t
  {
    assert nodes[i] == nodes[i..i + Size(t)][0];
    if t.Inner? {
      HoldsParts(nodes, i, Nodes(t, i)[..1], NodesAll(t.children, i + 1));
      NodesRepresentAll(nodes, i + 1, t.children);
    }
  }

  lemma {:induction false} NodesRepresentAll(nodes: seq<Node>, i: nat, f: Forest)
    requires Holds(nodes, i, NodesAll(f, i))
    ensures RepresentsAll(nodes, Roots(f, i), f)
    decreases f
  {
    match f
    case Empty =>
    case More(t, rest) =>
      hide Holds, Represents, Nodes;
      HoldsParts(nodes, i, Nodes(t, i), NodesAll(rest, i + Size(t)));
      NodesRepresent(nodes, i, t);
      NodesRepresentAll(nodes, i + Size(t), rest);
      assert Roots(f, i)[1..] == Roots(rest, i + Size(t));
  }
}
