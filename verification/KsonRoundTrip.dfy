/** Every text of a tree, however it is laid out, is read as the tree; the formatter's text is one of them. */
module KsonRoundTrip {
  import opened Wrappers
  import opened KsonTree
  import opened Kson

  /** No stop character but behind a backslash, and no backslash at the end. */
  predicate Clean(text: string, stops: string)
    decreases |text|
  {
    text == "" || (text[0] !in stops
        && (if text[0] == '\\' then |text| >= 2 && Clean(text[2..], stops) else Clean(text[1..], stops)))
  }

  /** A text can be written with these quotes; without any it neither begins like something else nor holds a character
      that would end it. */
  predicate SoundText(quote: Quote, text: string) {
    match quote
    case NoQuote => text != "" && text[0] !in " \t\n\U{B}\U{C}\r,:[]{}'\"" && Clean(text, ",:]}\n")
    case SingleQuote => Clean(text, "'")
    case DoubleQuote => Clean(text, "\"")
  }

  /** Blanks and commas, or nothing. */
  predicate Gap(g: string) {
    forall i :: 0 <= i < |g| ==> g[i] in " \t\n\U{B}\U{C}\r,"
  }

  /** What follows ends a text without quotes. */
  predicate Ends(follow: string) {
    follow == "" || follow[0] in ",:]}\n"
  }

  datatype WrittenKey = Unnamed | Named(quote: Quote, name: string, beforeColon: string, afterColon: string)

  /** A tree together with the quotes of its keys and the gaps between its tokens. */
  datatype Written =
    | WrittenLeaf(key: WrittenKey, quote: Quote, text: string)
    | WrittenInner(key: WrittenKey, brace: bool, children: WrittenForest, beforeClose: string)

  datatype WrittenForest = NoneWritten | MoreWritten(before: string, first: Written, rest: WrittenForest)

  function KeyOf(key: WrittenKey): Option<string> {
    match key
    case Unnamed => None
    case Named(_, name, _, _) => Some(name)
  }

  function TreeOf(x: Written): Tree {
    match x
    case WrittenLeaf(key, quote, text) => Leaf(KeyOf(key), quote, text)
    case WrittenInner(key, brace, children, _) => Inner(KeyOf(key), brace, ForestOf(children))
  }

  function ForestOf(f: WrittenForest): Forest {
    match f
    case NoneWritten => Empty
    case MoreWritten(_, first, rest) => More(TreeOf(first), ForestOf(rest))
  }

  function Quoted(quote: Quote, text: string): string {
    QuoteMark(quote) + text + QuoteMark(quote)
  }

  function KeyText(key: WrittenKey): string {
    match key
    case Unnamed => ""
    case Named(quote, name, beforeColon, afterColon) => Quoted(quote, name) + (beforeColon + ":" + afterColon)
  }

  function TextOf(x: Written): (r: string)
    decreases x, 1
  {
    match x
    case WrittenLeaf(key, quote, text) => KeyText(key) + Quoted(quote, text)
    case WrittenInner(key, brace, children, beforeClose) => OpenText(x) + CloseMark(brace)
  }

  /** The text of an inner node up to its closing bracket. */
  function OpenText(x: Written): string
    requires x.WrittenInner?
    decreases x, 0
  {
    KeyText(x.key) + OpenMark(x.brace) + TextOfAll(x.children) + x.beforeClose
  }

  function TextOfAll(f: WrittenForest): string
    decreases f, 0
  {
    match f
    case NoneWritten => ""
    case MoreWritten(before, first, rest) => before + TextOf(first) + TextOfAll(rest)
  }

  predicate SoundKey(key: WrittenKey) {
    match key
    case Unnamed => true
    case Named(quote, name, beforeColon, afterColon) =>
      && SoundText(quote, name) && Gap(beforeColon) && Gap(afterColon)
      && (quote == NoQuote ==> Ends(beforeColon + ":"))
  }

  /** The tree is properly written in front of what follows: gaps are gaps, texts can be written with their quotes, and
      a text without quotes is followed by a character that ends it. */
  predicate Proper(x: Written, follow: string)
    decreases x, 1
  {
    && SoundKey(x.key)
    && match x
       case WrittenLeaf(_, quote, text) => SoundText(quote, text) && (quote == NoQuote ==> Ends(follow))
       case WrittenInner(_, brace, children, beforeClose) =>
         Gap(beforeClose) && ProperAll(children, beforeClose + (CloseMark(brace) + follow))
  }

  predicate ProperAll(f: WrittenForest, follow: string)
    decreases f, 0
  {
    match f
    case NoneWritten => true
    case MoreWritten(before, first, rest) =>
      Gap(before) && Proper(first, TextOfAll(rest) + follow) && ProperAll(rest, follow)
  }

  /** From p on the text is x. */
  predicate Rest(s: string, p: nat, x: string) {
    p <= |s| && s[p..] == x
  }

  lemma RestParts(s: string, p: nat, a: string, b: string)
    requires Rest(s, p, a + b)
    ensures p + |a| <= |s| && s[p..p + |a|] == a && Rest(s, p + |a|, b)
    ensures a != "" ==> p < |s| && s[p] == a[0]
  {
    assert s[p..][|a|..] == b && s[p..][..|a|] == a;
    assert a != "" ==> s[p] == s[p..][0];
  }

  lemma RestThree(s: string, p: nat, a: string, b: string, c: string, rest: string)
    requires Rest(s, p, a + b + c + rest)
    ensures Rest(s, p, a + (b + (c + rest)))
  {
    assert a + b + c + rest == a + (b + (c + rest));
  }

  /** A clean text is scanned to its end. */
  lemma {:induction false} ScanClean(s: string, p: nat, text: string, marks: string, stops: string, rest: string)
    requires Rest(s, p, text + rest) && Clean(text, marks) && (rest == "" || rest[0] in marks)
    requires forall c: char :: c in stops <==> c in marks
    ensures Scan(s, p, stops) == p + |text|
    decreases |text|
  {
    if text == "" {
      RestParts(s, p, rest, "");
    } else {
      RestParts(s, p, text[..1], text[1..] + rest);
      if text[0] == '\\' {
        RestParts(s, p, text[..2], text[2..] + rest);
        ScanClean(s, p + 2, text[2..], marks, stops, rest);
      } else {
        ScanClean(s, p + 1, text[1..], marks, stops, rest);
      }
    }
  }

  /** The parser's blanks and stops are these characters. */
  lemma BlanksAre(c: char)
    ensures IsBlank(c) <==> c in " \t\n\U{B}\U{C}\r"
  {
  }

  lemma StopsAre(c: char)
    ensures c in PLAIN_STOPS <==> c in ",:]}\n"
  {
  }

  /** At a character that is not blank a turn acts on it. */
  lemma Turned(s: string, st: State)
    requires st.p < |s| && !IsBlank(s[st.p])
    ensures Step(s, st) == Act(s, st)
    ensures Act(s, st).Next? ==> st.p < Act(s, st).st.p <= |s| && Run(s, st) == Run(s, Act(s, st).st)
    ensures Act(s, st).Stop? ==> Run(s, st) == Conclude(s, Act(s, st).last, Act(s, st).error)
  {
    StepMoves(s, st);
  }

  lemma BlankPassed(s: string, st: State)
    requires st.p < |s| && IsBlank(s[st.p])
    ensures Run(s, st) == Run(s, st.(p := st.p + 1))
  {
    var st1 := st.(p := st.p + 1);
    assert SkipBlanks(s, st.p) == SkipBlanks(s, st1.p);
    assert st.(p := SkipBlanks(s, st.p)) == st1.(p := SkipBlanks(s, st1.p));
    StepMoves(s, st);
    StepMoves(s, st1);
  }

  /** Blanks and commas change nothing. */
  lemma {:induction false} GapPassed(s: string, st: State, g: string, rest: string)
    requires Rest(s, st.p, g + rest) && Gap(g)
    ensures Rest(s, st.p + |g|, rest) && Run(s, st) == Run(s, st.(p := st.p + |g|))
    decreases |g|
  {
    hide Run, Step;
    RestParts(s, st.p, g, rest);
    if g != "" {
      RestParts(s, st.p, g[..1], g[1..] + rest);
      BlanksAre(g[0]);
      if g[0] == ',' {
        Turned(s, st);
      } else {
        BlankPassed(s, st);
      }
      GapPassed(s, st.(p := st.p + 1), g[1..], rest);
    }
  }

  lemma LastReplaced(nodes: seq<Node>, x: Node, y: Node)
    ensures (nodes + [x])[|nodes| := y] == nodes + [y]
  {
  }

  predicate StartsString(c: char) {
    !IsBlank(c) && c !in ",:[]{}"
  }

  lemma PlainEnds(s: string, p: nat, text: string, rest: string)
    requires Rest(s, p, text + rest) && SoundText(NoQuote, text) && Ends(rest)
    ensures p < |s| && QuoteOf(s[p]) == NoQuote && StartsString(s[p])
    ensures p + |text| <= |s| && s[p..p + |text|] == text && Scan(s, p, PLAIN_STOPS) == p + |text|
  {
    RestParts(s, p, text, rest);
    BlanksAre(s[p]);
    forall c: char ensures c in PLAIN_STOPS <==> c in ",:]}\n" {
      StopsAre(c);
    }
    ScanClean(s, p, text, ",:]}\n", PLAIN_STOPS, rest);
  }

  lemma QuotedParts(s: string, p: nat, mark: char, text: string, rest: string)
    requires Rest(s, p, [mark] + text + [mark] + rest)
    ensures p + 1 <= |s| && s[p] == mark && Rest(s, p + 1, text + ([mark] + rest))
    ensures p + 1 + |text| < |s| && s[p + 1..p + 1 + |text|] == text
  {
    hide Rest;
    var tail := [mark] + rest;
    RestThree(s, p, [mark], text, [mark], rest);
    RestParts(s, p, [mark], text + tail);
    RestParts(s, p + 1, text, tail);
    RestParts(s, p + 1 + |text|, [mark], rest);
  }

  lemma QuotedEnds(s: string, p: nat, mark: char, text: string, rest: string)
    requires Rest(s, p, [mark] + text + [mark] + rest) && Clean(text, [mark])
    ensures p + 1 + |text| < |s| && s[p] == mark && s[p + 1..p + 1 + |text|] == text
        && Scan(s, p + 1, [mark]) == p + 1 + |text|
  {
    QuotedParts(s, p, mark, text, rest);
    hide *;
    var tail := [mark] + rest;
    assert tail[0] == mark;
    ScanClean(s, p + 1, text, [mark], [mark], tail);
  }

  function MarkChar(quote: Quote): char {
    if quote == SingleQuote then '\'' else '"'
  }

  lemma MarkCharIs(quote: Quote, text: string)
    requires quote != NoQuote
    ensures QuoteMark(quote) == [MarkChar(quote)] && QuoteOf(MarkChar(quote)) == quote
    ensures StartsString(MarkChar(quote)) && SoundText(quote, text) == Clean(text, [MarkChar(quote)])
  {
  }

  lemma QuotedIs(quote: Quote, text: string, mark: char)
    requires QuoteMark(quote) == [mark]
    ensures Quoted(quote, text) == [mark] + text + [mark]
  {
  }

  /** Where a sound string ends. */
  lemma StringEnds(s: string, p: nat, quote: Quote, text: string, rest: string)
    requires Rest(s, p, Quoted(quote, text) + rest) && SoundText(quote, text) && (quote == NoQuote ==> Ends(rest))
    ensures p < |s| && QuoteOf(s[p]) == quote && StartsString(s[p])
    ensures var from := p + |QuoteMark(quote)|;
            && from + |text| <= |s| && (quote != NoQuote ==> from + |text| < |s|) && s[from..from + |text|] == text
            && Scan(s, from, if quote == NoQuote then PLAIN_STOPS else [s[p]]) == from + |text|
  {
    hide Scan, Clean, QuoteOf, IsBlank, SoundText, MarkChar, StartsString, Rest;
    if quote == NoQuote {
      assert Quoted(quote, text) == text;
      PlainEnds(s, p, text, rest);
    } else {
      MarkCharIs(quote, text);
      var mark := MarkChar(quote);
      hide *;
      QuotedIs(quote, text, mark);
      QuotedEnds(s, p, mark, text, rest);
    }
  }

  /** A sound string is read into the node meant for it. */
  lemma StringRead(s: string, st: State, quote: Quote, text: string, rest: string, u: nat, st1: State)
    requires Rest(s, st.p, Quoted(quote, text) + rest) && SoundText(quote, text) && (quote == NoQuote ==> Ends(rest))
    requires Target(st) == Some((u, st1)) && u < |st1.nodes|
    ensures var st2 := State(st.p + |Quoted(quote, text)|, st1.stack,
        st1.nodes[u := Node(st1.nodes[u].key, Text(quote), Str(Some(text)))]);
            Rest(s, st2.p, rest) && Run(s, st) == Run(s, st2)
  {
    hide Run, Step, Target, SoundText, Scan, IsBlank, QuoteOf;
    StringEnds(s, st.p, quote, text, rest);
    RestParts(s, st.p, Quoted(quote, text), rest);
    Turned(s, st);
    assert Act(s, st) == ReadString(s, st);
  }

  lemma TargetNew(st: State)
    requires !AwaitsValue(st.stack)
    ensures Target(st)
        == Some((|st.nodes|, st.(stack := st.stack + [|st.nodes|], nodes := st.nodes + [Node(None, Unset, Str(None))])))
  {
  }

  /** A string where no value is awaited becomes a new node. */
  lemma NewRead(s: string, st: State, quote: Quote, text: string, rest: string)
    requires Rest(s, st.p, Quoted(quote, text) + rest) && SoundText(quote, text) && (quote == NoQuote ==> Ends(rest))
    requires !AwaitsValue(st.stack)
    ensures var p := st.p + |Quoted(quote, text)|;
            Rest(s, p, rest) && Run(s, st) == Run(s, State(p, st.stack + [|st.nodes|],
                st.nodes + [Node(None, Text(quote), Str(Some(text)))]))
  {
    var n, blank := |st.nodes|, Node(None, Unset, Str(None));
    TargetNew(st);
    LastReplaced(st.nodes, blank, Node(None, Text(quote), Str(Some(text))));
    hide *;
    StringRead(s, st, quote, text, rest, n, st.(stack := st.stack + [n], nodes := st.nodes + [blank]));
  }

  lemma TargetNamed(p: nat, stack: seq<int>, nodes: seq<Node>, quote: Quote, name: string)
    ensures var n, named := |nodes|, Node(None, Text(quote), Str(Some(name)));
            Target(State(p, stack + [n, KEY_MARK], nodes + [named]))
            == Some((n, State(p, stack + [n], nodes + [Node(Some(name), Text(quote), Str(Some(name)))])))
  {
    var n, named := |nodes|, Node(None, Text(quote), Str(Some(name)));
    assert (stack + [n, KEY_MARK])[..|stack| + 1] == stack + [n];
    LastReplaced(nodes, named, named.(key := Some(name)));
  }

  /** A string behind a key gets the key. */
  lemma NamedRead(s: string, p: nat, stack: seq<int>, nodes: seq<Node>, q: Quote, name: string, quote: Quote,
      text: string, rest: string)
    requires Rest(s, p, Quoted(quote, text) + rest) && SoundText(quote, text) && (quote == NoQuote ==> Ends(rest))
    ensures var p1 := p + |Quoted(quote, text)|;
            && Rest(s, p1, rest)
            && Run(s, State(p, stack + [|nodes|, KEY_MARK], nodes + [Node(None, Text(q), Str(Some(name)))]))
            == Run(s, State(p1, stack + [|nodes|], nodes + [Node(Some(name), Text(quote), Str(Some(text)))]))
  {
    var n, old1 := |nodes|, Node(Some(name), Text(q), Str(Some(name)));
    var new1 := Node(Some(name), Text(quote), Str(Some(text)));
    TargetNamed(p, stack, nodes, q, name);
    LastReplaced(nodes, old1, new1);
    hide *;
    var st := State(p, stack + [n, KEY_MARK], nodes + [Node(None, Text(q), Str(Some(name)))]);
    StringRead(s, st, quote, text, rest, n, State(p, stack + [n], nodes + [old1]));
  }

  /** The state at p after a key. */
  function Keyed(st: State, p: nat, key: WrittenKey): State {
    match key
    case Unnamed => st.(p := p)
    case Named(quote, k, _, _) => State(p, st.stack + [|st.nodes|, KEY_MARK],
        st.nodes + [Node(None, Text(quote), Str(Some(k)))])
  }

  lemma ColonRead(s: string, st: State, rest: string)
    requires Rest(s, st.p, ":" + rest) && st.stack != [] && st.stack[|st.stack| - 1] != KEY_MARK
    ensures Rest(s, st.p + 1, rest) && Run(s, st) == Run(s, State(st.p + 1, st.stack + [KEY_MARK], st.nodes))
  {
    hide Run, Step;
    RestParts(s, st.p, ":", rest);
    Turned(s, st);
  }

  lemma KeyParts(quote: Quote, k: string, g: string, h: string, rest: string)
    ensures var x, key := Quoted(quote, k), KeyText(Named(quote, k, g, h));
            key + rest == x + (g + (":" + (h + rest))) && |key| == |x| + |g| + 1 + |h|
  {
    hide Quoted;
    assert Quoted(quote, k) + (g + ":" + h) + rest == Quoted(quote, k) + (g + (":" + (h + rest)));
  }

  /** What follows a key without quotes ends it. */
  lemma KeyEnds(g: string, more: string)
    ensures Ends(g + (":" + more)) == Ends(g + ":")
  {
    assert g + (":" + more) == (g + ":") + more;
  }

  lemma MarkPushed(stack: seq<int>, n: nat)
    ensures stack + [n, KEY_MARK] == stack + [n] + [KEY_MARK]
    ensures stack + [n] != [] && (stack + [n])[|stack + [n]| - 1] != KEY_MARK
  {
  }

  /** A colon behind a value, with any gaps around it, goes onto the stack. */
  lemma ColonPassed(s: string, st: State, named: seq<int>, g: string, h: string, rest: string)
    requires Rest(s, st.p, g + (":" + (h + rest))) && Gap(g) && Gap(h)
    requires st.stack != [] && st.stack[|st.stack| - 1] != KEY_MARK && named == st.stack + [KEY_MARK]
    ensures var p1 := st.p + |g| + 1 + |h|; Rest(s, p1, rest) && Run(s, st) == Run(s, State(p1, named, st.nodes))
  {
    hide *;
    var tail := h + rest;
    GapPassed(s, st, g, ":" + tail);
    ColonRead(s, st.(p := st.p + |g|), tail);
    GapPassed(s, State(st.p + |g| + 1, named, st.nodes), h, rest);
  }

  lemma NamedKeyRead(s: string, st: State, quote: Quote, k: string, g: string, h: string, rest: string)
    requires Rest(s, st.p, Quoted(quote, k) + (g + (":" + (h + rest)))) && !AwaitsValue(st.stack)
    requires SoundText(quote, k) && Gap(g) && Gap(h) && (quote == NoQuote ==> Ends(g + ":"))
    ensures var p := st.p + |Quoted(quote, k)| + |g| + 1 + |h|;
            && Rest(s, p, rest)
            && Run(s, st) == Run(s, State(p, st.stack + [|st.nodes|, KEY_MARK],
                st.nodes + [Node(None, Text(quote), Str(Some(k)))]))
  {
    hide *;
    KeyEnds(g, h + rest);
    NewRead(s, st, quote, k, g + (":" + (h + rest)));
    MarkPushed(st.stack, |st.nodes|);
    var st1 := State(st.p + |Quoted(quote, k)|, st.stack + [|st.nodes|],
        st.nodes + [Node(None, Text(quote), Str(Some(k)))]);
    ColonPassed(s, st1, st.stack + [|st.nodes|, KEY_MARK], g, h, rest);
  }

  lemma KeyRead(s: string, st: State, key: WrittenKey, rest: string)
    requires Rest(s, st.p, KeyText(key) + rest) && SoundKey(key) && !AwaitsValue(st.stack)
    ensures Rest(s, st.p + |KeyText(key)|, rest)
    ensures Run(s, st) == Run(s, Keyed(st, st.p + |KeyText(key)|, key))
  {
    match key
    case Unnamed =>
      hide Run, Rest;
      assert "" + rest == rest;
    case Named(quote, k, g, h) =>
      KeyParts(quote, k, g, h, rest);
      hide Run, Rest, KeyText, Quoted, Ends, Gap, SoundText;
      NamedKeyRead(s, st, quote, k, g, h, rest);
  }

  /** The state after the tree has been read. */
  function After(st: State, x: Written): State {
    State(st.p + |TextOf(x)|, st.stack + [|st.nodes|], st.nodes + Nodes(TreeOf(x), |st.nodes|))
  }

  lemma LeafText(x: Written, rest: string)
    requires x.WrittenLeaf?
    ensures TextOf(x) + rest == KeyText(x.key) + (Quoted(x.quote, x.text) + rest)
    ensures |TextOf(x)| == |KeyText(x.key)| + |Quoted(x.quote, x.text)|
  {
    hide KeyText, Quoted;
  }

  lemma LeafRest(s: string, p: nat, x: Written, rest: string)
    requires x.WrittenLeaf? && Rest(s, p, TextOf(x) + rest)
    ensures Rest(s, p, KeyText(x.key) + (Quoted(x.quote, x.text) + rest))
  {
    LeafText(x, rest);
    hide *;
  }

  lemma AfterLeaf(st: State, x: Written)
    requires x.WrittenLeaf?
    ensures After(st, x) == State(st.p + |KeyText(x.key)| + |Quoted(x.quote, x.text)|, st.stack + [|st.nodes|],
        st.nodes + [Node(KeyOf(x.key), Text(x.quote), Str(Some(x.text)))])
  {
    LeafText(x, "");
    hide TextOf, KeyText, Quoted;
  }

  lemma ProperLeaf(x: Written, rest: string)
    requires x.WrittenLeaf? && Proper(x, rest)
    ensures SoundKey(x.key) && SoundText(x.quote, x.text) && (x.quote == NoQuote ==> Ends(rest))
  {
  }

  /** A string behind a key, or without one, becomes the node of a leaf. */
  lemma LeafBehindKey(s: string, st: State, key: WrittenKey, p: nat, quote: Quote, text: string, rest: string)
    requires Rest(s, p, Quoted(quote, text) + rest) && SoundText(quote, text) && (quote == NoQuote ==> Ends(rest))
    requires !AwaitsValue(st.stack)
    ensures var p1 := p + |Quoted(quote, text)|;
            && Rest(s, p1, rest)
            && Run(s, Keyed(st, p, key)) == Run(s, State(p1, st.stack + [|st.nodes|],
                st.nodes + [Node(KeyOf(key), Text(quote), Str(Some(text)))]))
  {
    hide Run, Rest, Quoted, SoundText, Ends;
    match key
    case Unnamed => NewRead(s, st.(p := p), quote, text, rest);
    case Named(q, k, _, _) => NamedRead(s, p, st.stack, st.nodes, q, k, quote, text, rest);
  }

  lemma LeafRead(s: string, st: State, x: Written, rest: string)
    requires x.WrittenLeaf? && Rest(s, st.p, TextOf(x) + rest) && Proper(x, rest) && !AwaitsValue(st.stack)
    ensures Rest(s, After(st, x).p, rest) && Run(s, st) == Run(s, After(st, x))
  {
    hide *;
    LeafRest(s, st.p, x, rest);
    AfterLeaf(st, x);
    ProperLeaf(x, rest);
    KeyRead(s, st, x.key, Quoted(x.quote, x.text) + rest);
    LeafBehindKey(s, st, x.key, st.p + |KeyText(x.key)|, x.quote, x.text, rest);
  }

  /** The state after the opening bracket of a tree. */
  function Opened(st: State, x: Written): State
    requires x.WrittenInner?
  {
    State(st.p + |KeyText(x.key)| + 1, st.stack + [|st.nodes|, MarkOf(x.brace)],
          st.nodes + [Node(None, if x.key.Unnamed? then Unset else Text(x.key.quote), Str(KeyOf(x.key)))])
  }

  lemma OpenKeyed(st: State, x: Written)
    requires x.WrittenInner? && !AwaitsValue(st.stack)
    ensures var st1 := Keyed(st, st.p + |KeyText(x.key)|, x.key);
            st1.p == st.p + |KeyText(x.key)| && Open(st1, x.brace) == Opened(st, x) && Opened(st, x).p == st1.p + 1
  {
    hide KeyText;
    if x.key.Named? {
      var n := |st.nodes|;
      assert (st.stack + [n, KEY_MARK])[|st.stack| + 1 := MarkOf(x.brace)] == st.stack + [n, MarkOf(x.brace)];
    }
  }

  lemma OpenActs(s: string, st: State, brace: bool, rest: string)
    requires Rest(s, st.p, OpenMark(brace) + rest)
    ensures Rest(s, st.p + 1, rest) && Run(s, st) == Run(s, Open(st, brace))
  {
    hide Run, Step, Open, Rest;
    RestParts(s, st.p, OpenMark(brace), rest);
    Turned(s, st);
  }

  lemma OpenRead(s: string, st: State, x: Written, rest: string)
    requires x.WrittenInner? && Rest(s, st.p, KeyText(x.key) + (OpenMark(x.brace) + rest)) && SoundKey(x.key)
    requires !AwaitsValue(st.stack)
    ensures Rest(s, Opened(st, x).p, rest) && Run(s, st) == Run(s, Opened(st, x))
  {
    hide *;
    OpenKeyed(st, x);
    KeyRead(s, st, x.key, OpenMark(x.brace) + rest);
    OpenActs(s, Keyed(st, st.p + |KeyText(x.key)|, x.key), x.brace, rest);
  }

  /** The state before the closing bracket of a tree. */
  function Filled(st: State, x: Written): State
    requires x.WrittenInner?
  {
    var st1, n := Opened(st, x), |st.nodes|;
    State(st.p + |OpenText(x)|, st1.stack + Roots(ForestOf(x.children), n + 1),
          st1.nodes + NodesAll(ForestOf(x.children), n + 1))
  }

  lemma {:induction false} MarkFound(stack: seq<int>, mark: int, ids: seq<int>)
    requires mark < 0 && forall k :: 0 <= k < |ids| ==> ids[k] >= 0
    ensures FindMark(stack + [mark] + ids, mark) == |stack|
    decreases |ids|
  {
    var all := stack + [mark] + ids;
    if ids != [] {
      assert all[..|all| - 1] == stack + [mark] + ids[..|ids| - 1];
      MarkFound(stack, mark, ids[..|ids| - 1]);
    }
  }

  /** The stack before a closing bracket. */
  lemma CloseStack(stack: seq<int>, n: nat, mark: int, ids: seq<int>)
    requires mark < 0 && forall k :: 0 <= k < |ids| ==> ids[k] >= 0
    ensures var all, i := stack + [n, mark] + ids, |stack| + 1;
            FindMark(all, mark) == i && all[i - 1] == n && all[i + 1..] == ids && all[..i] == stack + [n]
  {
    MarkFound(stack + [n], mark, ids);
    assert stack + [n] + [mark] == stack + [n, mark];
  }

  /** A closing bracket turns what lies above its mark into the children of the node below it. */
  lemma CloseTurn(st: State, stack: seq<int>, n: nat, brace: bool, ids: seq<int>)
    requires st.stack == stack + [n, MarkOf(brace)] + ids && HasText(st.nodes, n)
    requires Within(ids, |st.nodes|)
    ensures var nodes := st.nodes[n := Node(st.nodes[n].value.text, KindOf(brace), Children(ids))];
            Close(st, brace) == if stack == [] then Stop(State(st.p, stack + [n], nodes), NoError)
                                else Next(State(st.p + 1, stack + [n], nodes))
  {
    hide FindMark, KindOf;
    CloseStack(stack, n, MarkOf(brace), ids);
  }

  lemma FilledFacts(st: State, x: Written)
    requires x.WrittenInner?
    ensures var st1, n, f := Filled(st, x), |st.nodes|, ForestOf(x.children);
            && st1.stack == st.stack + [n, MarkOf(x.brace)] + Roots(f, n + 1)
            && HasText(st1.nodes, n) && st1.nodes[n].value.text == KeyOf(x.key)
            && Within(Roots(f, n + 1), |st1.nodes|)
            && st1.p + 1 == After(st, x).p
  {
    hide OpenText, KeyText, ForestOf, MarkOf;
    assert |CloseMark(x.brace)| == 1;
  }

  /** The closing bracket of a tree makes its node. */
  lemma CloseRead(st: State, x: Written)
    requires x.WrittenInner?
    ensures var st1 := After(st, x);
            Close(Filled(st, x), x.brace) == if st.stack == [] then Stop(st1.(p := st1.p - 1), NoError) else Next(st1)
  {
    var n, f := |st.nodes|, ForestOf(x.children);
    FilledFacts(st, x);
    CloseTurn(Filled(st, x), st.stack, n, x.brace, Roots(f, n + 1));
    hide Close, Nodes, NodesAll, Roots, OpenText, KeyText, TextOf, TreeOf, KindOf, MarkOf, ForestOf;
    NodeClosed(st, x, Opened(st, x).nodes[n]);
  }

  lemma NodeClosed(st: State, x: Written, open: Node)
    requires x.WrittenInner?
    ensures var n, f := |st.nodes|, ForestOf(x.children);
            (st.nodes + [open] + NodesAll(f, n + 1))[n :=
                Node(KeyOf(x.key), KindOf(x.brace), Children(Roots(f, n + 1)))]
            == st.nodes + Nodes(TreeOf(x), n)
  {
    hide NodesAll, Roots;
  }

  lemma OpenParts(x: Written, rest: string)
    requires x.WrittenInner?
    ensures OpenText(x) + rest
            == KeyText(x.key) + (OpenMark(x.brace) + (TextOfAll(x.children) + (x.beforeClose + rest)))
    ensures |OpenText(x)| == |KeyText(x.key)| + 1 + |TextOfAll(x.children)| + |x.beforeClose|
  {
    hide KeyText, TextOfAll;
  }

  /** A tree is read up to its closing bracket, if there is one. */
  lemma {:induction false} InnerFilled(s: string, st: State, x: Written, rest: string)
    requires x.WrittenInner? && Rest(s, st.p, OpenText(x) + rest) && !AwaitsValue(st.stack)
    requires SoundKey(x.key) && Gap(x.beforeClose) && ProperAll(x.children, x.beforeClose + rest)
    ensures Rest(s, Filled(st, x).p, rest) && Run(s, st) == Run(s, Filled(st, x))
    decreases x, 0
  {
    hide Run, OpenText, KeyText, TextOfAll, ForestOf, Roots, NodesAll, Rest, ProperAll, Gap, SoundKey, AwaitsValue;
    OpenParts(x, rest);
    OpenRead(s, st, x, TextOfAll(x.children) + (x.beforeClose + rest));
    OpenedReady(st, x);
    ForestRead(s, Opened(st, x), x.children, x.beforeClose + rest);
    GapPassed(s, AfterAll(Opened(st, x), x.children), x.beforeClose, rest);
  }

  /** A tree below another, or a leaf, is read into its nodes. */
  lemma {:induction false} TreeRead(s: string, st: State, x: Written, rest: string)
    requires Rest(s, st.p, TextOf(x) + rest) && Proper(x, rest) && !AwaitsValue(st.stack)
    requires x.WrittenInner? ==> st.stack != []
    ensures Rest(s, After(st, x).p, rest) && Run(s, st) == Run(s, After(st, x))
    decreases x, 1
  {
    hide Run, Step, Close, Gap, KeyText, OpenText, ForestOf;
    if x.WrittenLeaf? {
      LeafRead(s, st, x, rest);
    } else {
      assert TextOf(x) + rest == OpenText(x) + (CloseMark(x.brace) + rest);
      InnerFilled(s, st, x, CloseMark(x.brace) + rest);
      CloseRead(st, x);
      RestParts(s, Filled(st, x).p, CloseMark(x.brace), rest);
      Turned(s, Filled(st, x));
    }
  }

  function AfterAll(st: State, f: WrittenForest): State {
    State(st.p + |TextOfAll(f)|, st.stack + Roots(ForestOf(f), |st.nodes|),
          st.nodes + NodesAll(ForestOf(f), |st.nodes|))
  }

  lemma MoreParts(f: WrittenForest, rest: string)
    requires f.MoreWritten?
    ensures TextOfAll(f) + rest == f.before + (TextOf(f.first) + (TextOfAll(f.rest) + rest))
    ensures |TextOfAll(f)| == |f.before| + |TextOf(f.first)| + |TextOfAll(f.rest)|
  {
    hide TextOf;
  }

  /** The children of a tree are read one after the other. */
  lemma {:induction false} ForestRead(s: string, st: State, f: WrittenForest, rest: string)
    requires Rest(s, st.p, TextOfAll(f) + rest) && ProperAll(f, rest) && Ready(st.stack)
    ensures Rest(s, AfterAll(st, f).p, rest) && Run(s, st) == Run(s, AfterAll(st, f))
    decreases f, 0
  {
    hide Run, TextOf, Nodes, Proper, Rest, Gap, After, AfterAll, Ready;
    match f
    case NoneWritten =>
      AfterNone(st);
      assert "" + rest == rest;
    case MoreWritten(before, first, others) =>
      MoreParts(f, rest);
      hide TextOfAll;
      GapPassed(s, st, before, TextOf(first) + (TextOfAll(others) + rest));
      var st1 := st.(p := st.p + |before|);
      ReadyAfter(st1, first);
      TreeRead(s, st1, first, TextOfAll(others) + rest);
      ForestRead(s, After(st1, first), others, rest);
      AfterMore(st, f);
  }

  /** Values can be added to the innermost bracket. */
  predicate Ready(stack: seq<int>) {
    stack != [] && stack[|stack| - 1] != KEY_MARK
  }

  lemma OpenedReady(st: State, x: Written)
    requires x.WrittenInner?
    ensures Ready(Opened(st, x).stack)
  {
  }

  lemma ReadyAfter(st: State, x: Written)
    requires Ready(st.stack)
    ensures !AwaitsValue(st.stack) && st.stack != [] && Ready(After(st, x).stack)
  {
  }

  lemma AfterNone(st: State)
    ensures AfterAll(st, NoneWritten) == st
  {
  }

  lemma NodesMore(f: WrittenForest, n: nat)
    requires f.MoreWritten?
    ensures var t, g, m := TreeOf(f.first), ForestOf(f.rest), n + |Nodes(TreeOf(f.first), n)|;
            Roots(ForestOf(f), n) == [n] + Roots(g, m) && NodesAll(ForestOf(f), n) == Nodes(t, n) + NodesAll(g, m)
  {
    hide Nodes;
  }

  lemma Regrouped<T>(a: seq<T>, b: seq<T>, c: seq<T>)
    ensures a + b + c == a + (b + c) && |a + b| == |a| + |b|
  {
  }

  lemma AfterMore(st: State, f: WrittenForest)
    requires f.MoreWritten?
    ensures AfterAll(After(st.(p := st.p + |f.before|), f.first), f.rest) == AfterAll(st, f)
  {
    var n, x := |st.nodes|, Nodes(TreeOf(f.first), |st.nodes|);
    MoreParts(f, "");
    NodesMore(f, n);
    Regrouped(st.stack, [n], Roots(ForestOf(f.rest), n + |x|));
    Regrouped(st.nodes, x, NodesAll(ForestOf(f.rest), n + |x|));
    var st1 := After(st.(p := st.p + |f.before|), f.first);
    assert |st1.nodes| == n + |x| && st1.stack == st.stack + [n];
    hide TextOf, TextOfAll, Nodes, NodesAll, Roots, ForestOf, TreeOf, Size, SizeAll, After;
  }

  lemma WholeText(s: string)
    ensures Rest(s, 0, s)
  {
  }

  /** At the end of the text the parse ends. */
  lemma EndReached(s: string, st: State)
    requires Rest(s, st.p, "")
    ensures Run(s, st) == Conclude(s, st, NoError) && st.p == |s|
  {
    assert |s[st.p..]| == 0;
  }

  /** A leaf behind any gap and before another is read to the end of the text. */
  lemma LeafParsed(lead: string, x: Written, tail: string)
    requires x.WrittenLeaf? && Gap(lead) && Proper(x, tail) && Gap(tail)
    ensures var s := lead + (TextOf(x) + tail); Parse(s) == Parsed(Nodes(TreeOf(x), 0), NoError, |s|)
  {
    hide Run, TextOf, TreeOf, Nodes, Gap, Proper, Rest;
    var s := lead + (TextOf(x) + tail);
    WholeText(s);
    GapPassed(s, INITIAL, lead, TextOf(x) + tail);
    var st := INITIAL.(p := |lead|);
    TreeRead(s, st, x, tail);
    assert tail + "" == tail;
    GapPassed(s, After(st, x), tail, "");
    var end := After(st, x).(p := After(st, x).p + |tail|);
    EndReached(s, end);
    assert [] + Nodes(TreeOf(x), 0) == Nodes(TreeOf(x), 0);
    assert SkipBlanks(s, |s|) == |s|;
  }

  /** A tree with brackets behind any gap is read up to its closing bracket; what follows is not looked at. */
  lemma InnerParsed(lead: string, x: Written, tail: string)
    requires x.WrittenInner? && Gap(lead) && Proper(x, tail)
    ensures Parse(lead + (TextOf(x) + tail)) == Parsed(Nodes(TreeOf(x), 0), NoError, |lead| + |TextOf(x)| - 1)
  {
    hide Run, OpenText, TreeOf, Nodes, Gap, Rest, Close;
    var s, end := lead + (TextOf(x) + tail), CloseMark(x.brace) + tail;
    WholeText(s);
    GapPassed(s, INITIAL, lead, TextOf(x) + tail);
    var st := INITIAL.(p := |lead|);
    assert TextOf(x) + tail == OpenText(x) + end;
    InnerFilled(s, st, x, end);
    CloseRead(st, x);
    var st1 := Filled(st, x);
    RestParts(s, st1.p, CloseMark(x.brace), tail);
    Turned(s, st1);
    assert SkipBlanks(s, st1.p) == st1.p;
    assert [] + Nodes(TreeOf(x), 0) == Nodes(TreeOf(x), 0);
  }

  /** Every text of a tree is parsed without error into nodes that stand for the tree: with any quotes that its texts
      and keys allow, and any blanks and commas, or none, between its tokens. */
  lemma AnyText(lead: string, x: Written, tail: string)
    requires Gap(lead) && Proper(x, tail) && (x.WrittenLeaf? ==> Gap(tail))
    ensures var r := Parse(lead + (TextOf(x) + tail));
        r.Parsed? && r.error == NoError && r.nodes == Nodes(TreeOf(x), 0) && Represents(r.nodes, 0, TreeOf(x))
  {
    hide Parse, TextOf, TreeOf, Nodes, Gap, Proper;
    if x.WrittenLeaf? {
      LeafParsed(lead, x, tail);
    } else {
      InnerParsed(lead, x, tail);
    }
    var t := TreeOf(x);
    assert Nodes(t, 0)[0..0 + |Nodes(t, 0)|] == Nodes(t, 0);
    NodesRepresent(Nodes(t, 0), 0, t);
  }

  /** Without its closing bracket a tree is refused. */
  lemma Unclosed(lead: string, x: Written)
    requires x.WrittenInner? && Gap(lead) && SoundKey(x.key) && Gap(x.beforeClose)
    requires ProperAll(x.children, x.beforeClose)
    ensures var r := Parse(lead + OpenText(x)); r.Parsed? && r.error == ExtraLeft
  {
    hide Run, OpenText, TreeOf, Nodes, NodesAll, Gap, Rest, SoundKey, ProperAll;
    var s := lead + OpenText(x);
    WholeText(s);
    assert OpenText(x) + "" == OpenText(x) && x.beforeClose + "" == x.beforeClose;
    GapPassed(s, INITIAL, lead, OpenText(x) + "");
    var st := INITIAL.(p := |lead|);
    InnerFilled(s, st, x, "");
    EndReached(s, Filled(st, x));
  }

  /** A closing bracket behind a lone leaf is reported as extra, whatever follows. */
  lemma LoneRight(lead: string, x: Written, g: string, brace: bool, tail: string)
    requires x.WrittenLeaf? && Gap(lead) && Gap(g) && Proper(x, g + (CloseMark(brace) + tail))
    ensures var r := Parse(lead + (TextOf(x) + (g + (CloseMark(brace) + tail)))); r.Parsed? && r.error == ExtraRight
  {
    hide Run, TextOf, TreeOf, Nodes, Gap, Proper, Rest, FindMark;
    var end := CloseMark(brace) + tail;
    var s := lead + (TextOf(x) + (g + end));
    WholeText(s);
    GapPassed(s, INITIAL, lead, TextOf(x) + (g + end));
    var st := INITIAL.(p := |lead|);
    TreeRead(s, st, x, g + end);
    GapPassed(s, After(st, x), g, end);
    var st1 := After(st, x).(p := After(st, x).p + |g|);
    RestParts(s, st1.p, CloseMark(brace), tail);
    NoMark([0], MarkOf(brace));
    assert st1.stack == [0];
    Turned(s, st1);
  }

  /** A closing bracket before any value is reported as an extra left one. */
  lemma BareRight(lead: string, brace: bool, tail: string)
    requires Gap(lead)
    ensures var r := Parse(lead + (CloseMark(brace) + tail)); r.Parsed? && r.error == ExtraLeft
  {
    hide Run, Gap, Rest, FindMark;
    var s := lead + (CloseMark(brace) + tail);
    WholeText(s);
    GapPassed(s, INITIAL, lead, CloseMark(brace) + tail);
    var st := INITIAL.(p := |lead|);
    RestParts(s, st.p, CloseMark(brace), tail);
    NoMark([], MarkOf(brace));
    Turned(s, st);
  }

  lemma {:induction false} NoMark(stack: seq<int>, mark: int)
    requires mark !in stack
    ensures FindMark(stack, mark) == -1
  {
    if stack != [] {
      NoMark(stack[..|stack| - 1], mark);
    }
  }

  /** A tree that can be written: its keys in double quotes, and its texts with their own. */
  predicate Sound(t: Tree) {
    && (t.key.Some? ==> SoundText(DoubleQuote, t.key.value))
    && match t
       case Leaf(_, quote, text) => SoundText(quote, text)
       case Inner(_, _, children) => SoundAll(children)
  }

  predicate SoundAll(f: Forest) {
    match f
    case Empty => true
    case More(t, rest) => Sound(t) && SoundAll(rest)
  }

  function FormattedKey(key: Option<string>): WrittenKey {
    match key
    case None => Unnamed
    case Some(k) => Named(DoubleQuote, k, "", "")
  }

  /** A tree as the formatter writes it. */
  function Formatted(t: Tree, depth: nat): Written
    decreases t, 1
  {
    match t
    case Leaf(key, quote, text) => WrittenLeaf(FormattedKey(key), quote, text)
    case Inner(key, brace, children) =>
      WrittenInner(FormattedKey(key), brace, FormattedAll(children, true, depth), Ending(children, depth))
  }

  function FormattedAll(f: Forest, first: bool, depth: nat): WrittenForest
    decreases f, 0
  {
    match f
    case Empty => NoneWritten
    case More(t, rest) =>
      MoreWritten(Comma(first) + NewLine(depth + 1), Formatted(t, depth + 1), FormattedAll(rest, false, depth))
  }

  lemma {:induction false} FormattedIs(t: Tree, depth: nat)
    ensures TreeOf(Formatted(t, depth)) == t && TextOf(Formatted(t, depth)) == Format(t, depth)
    decreases t, 1
  {
    KeyFormatted(t.key);
    hide Ending, QuoteMark, FormattedKey, FormatKey, KeyText, FormatAll, FormattedAll;
    if t.Inner? {
      FormattedAllIs(t.children, true, depth);
      var key, inside, close := FormatKey(t.key), FormatAll(t.children, true, depth), CloseMark(t.brace);
      hide OpenMark, CloseMark;
      FiveParts(key, OpenMark(t.brace), inside, Ending(t.children, depth), close);
    }
  }

  lemma FiveParts(a: string, b: string, c: string, d: string, e: string)
    ensures a + b + c + d + e == a + (b + c + d + e)
  {
  }

  lemma KeyFormatted(key: Option<string>)
    ensures KeyText(FormattedKey(key)) == FormatKey(key) && KeyOf(FormattedKey(key)) == key
  {
  }

  lemma {:induction false} FormattedAllIs(f: Forest, first: bool, depth: nat)
    ensures ForestOf(FormattedAll(f, first, depth)) == f
    ensures TextOfAll(FormattedAll(f, first, depth)) == FormatAll(f, first, depth)
    decreases f, 0
  {
    hide Format, TextOf, Indent;
    if f.More? {
      FormattedIs(f.first, depth + 1);
      FormattedAllIs(f.rest, false, depth);
    }
  }

  lemma {:induction false} IndentGap(depth: nat)
    ensures Gap(Indent(depth))
  {
    if depth > 0 {
      IndentGap(depth - 1);
    }
  }

  lemma NewLineGap(depth: nat, first: bool)
    ensures Gap(Comma(first) + NewLine(depth)) && Ends(Comma(first) + NewLine(depth)) && Gap(NewLine(depth))
  {
    IndentGap(depth);
  }

  /** What the formatter writes of a sound tree is properly written. */
  lemma {:induction false} FormattedProper(t: Tree, depth: nat, follow: string)
    requires Sound(t) && Ends(follow)
    ensures Proper(Formatted(t, depth), follow)
    decreases t, 1
  {
    hide SoundText;
    if t.Inner? {
      NewLineGap(depth, true);
      FormattedAllProper(t.children, true, depth, Ending(t.children, depth) + (CloseMark(t.brace) + follow));
    }
  }

  lemma {:induction false} FormattedAllProper(f: Forest, first: bool, depth: nat, follow: string)
    requires SoundAll(f) && Ends(follow)
    ensures ProperAll(FormattedAll(f, first, depth), follow)
    ensures Ends(TextOfAll(FormattedAll(f, false, depth)) + follow)
    decreases f, 0
  {
    hide Formatted, TextOf, Sound, Proper, Gap, NewLine;
    if f.More? {
      NewLineGap(depth + 1, first);
      FormattedAllProper(f.rest, false, depth, follow);
      FormattedProper(f.first, depth + 1, TextOfAll(FormattedAll(f.rest, false, depth)) + follow);
    }
  }

  /** kson_format */
  function Print(t: Tree): string {
    Format(t, 0) + "\n"
  }

  /** What the formatter writes of a sound tree is parsed without error into nodes that stand for the tree. */
  lemma RoundTrip(t: Tree)
    requires Sound(t)
    ensures var r := Parse(Print(t));
        r.Parsed? && r.error == NoError && r.nodes == Nodes(t, 0) && Represents(r.nodes, 0, t)
  {
    hide Parse, Format, Formatted, Nodes, TextOf, TreeOf, Proper, Sound;
    FormattedIs(t, 0);
    FormattedProper(t, 0, "\n");
    AnyText("", Formatted(t, 0), "\n");
    assert "" + (Format(t, 0) + "\n") == Print(t);
  }

  /** The text says which tree it is. */
  lemma TextDeterminesTree(t: Tree, u: Tree)
    requires Sound(t) && Sound(u) && Print(t) == Print(u)
    ensures t == u
  {
    RoundTrip(t);
    RoundTrip(u);
    OneTree(Parse(Print(t)).nodes, 0, t, u);
  }

  /** However two trees are written, the same text is not a text of both. */
  lemma AnyTextDeterminesTree(x: Written, y: Written)
    requires Proper(x, "") && Proper(y, "") && TextOf(x) == TextOf(y)
    ensures TreeOf(x) == TreeOf(y)
  {
    hide Parse, Nodes, TextOf, TreeOf, Proper;
    AnyText("", x, "");
    AnyText("", y, "");
    OneTree(Parse("" + (TextOf(x) + "")).nodes, 0, TreeOf(x), TreeOf(y));
  }

  lemma OneDeep(t: Tree, depth: nat)
    requires t == Inner(Some("b"), false, More(Leaf(None, NoQuote, "1"), Empty)) && depth == 1
    ensures Format(t, depth) == "\"b\":[\n    1\n  ]"
  {
    var one, none: Forest := Leaf(None, NoQuote, "1"), Empty;
    assert Indent(1) == "  " && Indent(2) == "    " by {
      assert Indent(0) == "";
    }
    assert Format(one, 2) == "1" && FormatAll(none, false, 1) == "";
    assert FormatAll(t.children, true, 1) == "\n    1";
    assert Ending(t.children, 1) == "\n  ";
  }

  lemma EmptyInner(t: Tree, depth: nat)
    requires t == Inner(Some("d"), true, Empty)
    ensures Format(t, depth) == "\"d\":{}"
  {
    assert FormatAll(t.children, true, depth) == "" && Ending(t.children, depth) == "";
  }

  lemma TwoChildren(b: Tree, d: Tree, x: string, y: string)
    requires Format(b, 1) == x && Format(d, 1) == y
    ensures FormatAll(More(b, More(d, Empty)), true, 0) == "\n  " + x + (",\n  " + y)
  {
    hide Format;
    assert Indent(1) == "  " by {
      assert Indent(0) == "";
    }
    var none: Forest := Empty;
    assert FormatAll(none, false, 0) == "";
    assert FormatAll(More(d, none), false, 0) == ",\n  " + y;
  }

  lemma RootFormat(f: Forest)
    requires f.More?
    ensures Print(Inner(None, true, f)) == "{" + FormatAll(f, true, 0) + "\n" + "}" + "\n"
  {
    hide FormatAll;
    var t := Inner(None, true, f);
    assert Ending(f, 0) == "\n" + "" == "\n";
    assert FormatValue(t, 0) == "{" + FormatAll(f, true, 0) + "\n" + "}";
    assert Format(t, 0) == "" + FormatValue(t, 0) == FormatValue(t, 0);
  }

  /** The layout of the formatter: a line for each child, two more blanks for each level, and nothing between the
      brackets of an empty node. */
  lemma FormatExample()
    ensures var b := Inner(Some("b"), false, More(Leaf(None, NoQuote, "1"), Empty));
            Print(Inner(None, true, More(b, More(Inner(Some("d"), true, Empty), Empty))))
            == "{" + ("\n  " + "\"b\":[\n    1\n  ]" + (",\n  " + "\"d\":{}")) + "\n" + "}" + "\n"
  {
    hide *;
    var b, d := Inner(Some("b"), false, More(Leaf(None, NoQuote, "1"), Empty)), Inner(Some("d"), true, Empty);
    OneDeep(b, 1);
    EmptyInner(d, 1);
    TwoChildren(b, d, "\"b\":[\n    1\n  ]", "\"d\":{}");
    RootFormat(More(b, More(d, Empty)));
  }

  function PlainLeaf(text: string): Written {
    WrittenLeaf(Unnamed, NoQuote, text)
  }

  /** [1,2] */
  function Compact(): Written {
    WrittenInner(Unnamed, false, MoreWritten("", PlainLeaf("1"), MoreWritten(",", PlainLeaf("2"), NoneWritten)), "")
  }

  lemma PlainLeafIs(text: string, follow: string)
    requires SoundText(NoQuote, text) && Ends(follow)
    ensures var x := PlainLeaf(text); Proper(x, follow) && TextOf(x) == text && TreeOf(x) == Leaf(None, NoQuote, text)
  {
    hide SoundText;
  }

  lemma DigitSound(text: string)
    requires text == "1" || text == "2"
    ensures SoundText(NoQuote, text)
  {
    assert text[1..] == "";
  }

  lemma CompactText()
    ensures TextOf(Compact()) == "[1,2]" && Proper(Compact(), "")
  {
    DigitSound("1");
    DigitSound("2");
    PlainLeafIs("1", ",2]");
    PlainLeafIs("2", "]");
    hide PlainLeaf, SoundText;
    var last := MoreWritten(",", PlainLeaf("2"), NoneWritten);
    assert TextOfAll(NoneWritten) == "";
    assert TextOfAll(last) == ",2";
    assert "" + ("]" + "") == "]" && ",2" + "]" == ",2]";
    assert ProperAll(last, "]");
  }

  lemma CompactNodes()
    ensures Nodes(TreeOf(Compact()), 0)
            == [Node(None, Bracket, Children([1, 2])), Node(None, Text(NoQuote), Str(Some("1"))),
                Node(None, Text(NoQuote), Str(Some("2")))]
  {
    var one, two, none: Forest := Leaf(None, NoQuote, "1"), Leaf(None, NoQuote, "2"), Empty;
    var last := More(two, none);
    var both := More(one, last);
    assert TreeOf(Compact()) == Inner(None, false, both);
    hide Compact, TreeOf;
    assert Size(one) == 1 && Size(two) == 1;
    assert NodesAll(none, 3) == [] && Roots(none, 3) == [];
    assert NodesAll(last, 2) == Nodes(two, 2) && Roots(last, 2) == [2];
    assert NodesAll(both, 1) == Nodes(one, 1) + Nodes(two, 2) && Roots(both, 1) == [1, 2];
  }

  /** A compact text, with nothing but a comma between its leaves, is read as its two leaves. */
  lemma CompactExample()
    ensures Parse("[1,2]")
            == Parsed([Node(None, Bracket, Children([1, 2])), Node(None, Text(NoQuote), Str(Some("1"))),
                       Node(None, Text(NoQuote), Str(Some("2")))], NoError, 4)
  {
    CompactText();
    CompactNodes();
    hide Parse, TextOf, Proper, Nodes, TreeOf;
    InnerParsed("", Compact(), "");
    assert "" + ("[1,2]" + "") == "[1,2]";
  }
}
