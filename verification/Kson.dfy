/** kson.c: the parser, and that it reads back what the formatter writes. */
module Kson {
  import opened Wrappers
  import opened KsonTree

  const BRACKET_MARK := -1
  const BRACE_MARK := -2
  const KEY_MARK := -3

  /** Where the text is read, the stack of node indices and marks, and the nodes. */
  datatype State = State(p: nat, stack: seq<int>, nodes: seq<Node>)

  datatype Error = NoError | ExtraLeft | ExtraRight | NoKey

  /** A turn of the loop goes on, ends it, or reads or points outside the text, the stack or the nodes. */
  datatype Turn = Next(st: State) | Stop(last: State, error: Error) | Stray

  datatype Result = Parsed(nodes: seq<Node>, error: Error, length: nat) | Undefined

  predicate IsBlank(c: char) {
    c == ' ' || '\t' <= c <= '\r'
  }

  function SkipBlanks(s: string, p: nat): (q: nat)
    ensures p <= q && (p <= |s| ==> q <= |s|)
    decreases |s| - p
  {
    if p < |s| && IsBlank(s[p]) then SkipBlanks(s, p + 1) else p
  }

  /** The end of a string: the next stop character, passing over what a backslash escapes. */
  function Scan(s: string, q: nat, stops: string): (r: nat)
    ensures q <= r
    decreases |s| - q
  {
    if q >= |s| || s[q] in stops then q else Scan(s, if s[q] == '\\' then q + 2 else q + 1, stops)
  }

  const PLAIN_STOPS := "]},:\n"

  function MarkOf(brace: bool): int {
    if brace then BRACE_MARK else BRACKET_MARK
  }

  predicate AwaitsValue(stack: seq<int>) {
    |stack| >= 2 && stack[|stack| - 1] == KEY_MARK
  }

  function Open(st: State, brace: bool): State {
    if AwaitsValue(st.stack) then st.(p := st.p + 1, stack := st.stack[|st.stack| - 1 := MarkOf(brace)])
    else State(st.p + 1, st.stack + [|st.nodes|, MarkOf(brace)], st.nodes + [Node(None, Unset, Str(None))])
  }

  /** The topmost place of a mark in the stack, or -1. */
  function FindMark(stack: seq<int>, mark: int): (i: int)
    ensures -1 <= i < |stack| && (i >= 0 ==> stack[i] == mark)
  {
    if stack == [] then -1
    else if stack[|stack| - 1] == mark then |stack| - 1
    else FindMark(stack[..|stack| - 1], mark)
  }

  /** A node whose value is a string, or has not been set. */
  predicate HasText(nodes: seq<Node>, i: int) {
    0 <= i < |nodes| && nodes[i].value.Str?
  }

  function Close(st: State, brace: bool): Turn {
    var i := FindMark(st.stack, MarkOf(brace));
    if i < 0 then Stop(st, ExtraRight)
    else if i == 0 || !HasText(st.nodes, st.stack[i - 1]) || !Within(st.stack[i + 1..], |st.nodes|) then Stray
    else
      var u := st.stack[i - 1];
      var nodes := st.nodes[u := Node(st.nodes[u].value.text, KindOf(brace), Children(st.stack[i + 1..]))];
      if i == 1 then Stop(State(st.p, st.stack[..i], nodes), NoError) else Next(State(st.p + 1, st.stack[..i], nodes))
  }

  predicate Within(ids: seq<int>, n: nat) {
    forall k :: 0 <= k < |ids| ==> 0 <= ids[k] < n
  }

  /** The node for the next string, and the state in which its key, if any, has been set. */
  function Target(st: State): Option<(nat, State)> {
    if AwaitsValue(st.stack) then
      var top := |st.stack|;
      var u := st.stack[top - 2];
      if HasText(st.nodes, u)
          then Some((u, st.(stack := st.stack[..top - 1], nodes :=
          st.nodes[u := st.nodes[u].(key := st.nodes[u].value.text)])))
      else None
    else Some((|st.nodes|, st.(stack := st.stack + [|st.nodes|], nodes := st.nodes + [Node(None, Unset, Str(None))])))
  }

  function QuoteOf(c: char): Quote {
    if c == '\'' then SingleQuote else if c == '"' then DoubleQuote else NoQuote
  }

  function ReadString(s: string, st: State): Turn
    requires st.p < |s|
  {
    var p := st.p;
    var quote := QuoteOf(s[p]);
    var from := if quote == NoQuote then p else p + 1;
    var q := Scan(s, from, if quote == NoQuote then PLAIN_STOPS else [s[p]]);
    match Target(st)
    case None => Stray
    case Some((u, st1)) =>
      if q > |s| || (quote != NoQuote && q == |s|) || u >= |st1.nodes| then Stray
      else
        Next(State(if quote == NoQuote then q
            else q + 1, st1.stack, st1.nodes[u := Node(st1.nodes[u].key, Text(quote), Str(Some(s[from..q])))]))
  }

  /** One turn of the loop over the text. */
  function Step(s: string, st: State): Turn {
    Act(s, st.(p := SkipBlanks(s, st.p)))
  }

  function Act(s: string, st: State): Turn {
    if st.p >= |s| then Stop(st, NoError)
    else if s[st.p] == ',' then Next(st.(p := st.p + 1))
    else if s[st.p] == '[' || s[st.p] == '{' then Next(Open(st, s[st.p] == '{'))
    else if s[st.p] == ']' || s[st.p] == '}' then Close(st, s[st.p] == '}')
    else if s[st.p] == ':' then
      if st.stack == [] || st.stack[|st.stack| - 1] == KEY_MARK then Stop(st, NoKey)
      else Next(st.(p := st.p + 1, stack := st.stack + [KEY_MARK]))
    else ReadString(s, st)
  }

  lemma ScanMoves(s: string, q: nat, stops: string)
    requires q < |s| && s[q] !in stops
    ensures Scan(s, q, stops) > q
  {
  }

  lemma StepMoves(s: string, st: State)
    requires st.p <= |s|
    ensures Step(s, st).Next? ==> st.p < Step(s, st).st.p <= |s|
    ensures Step(s, st).Stop? ==> Step(s, st).last.p <= |s|
  {
    var p := SkipBlanks(s, st.p);
    if p < |s| && s[p] !in PLAIN_STOPS {
      ScanMoves(s, p, PLAIN_STOPS);
    }
  }

  /** After the loop. */
  function Conclude(s: string, st: State, error: Error): Result {
    Parsed(st.nodes, if |st.stack| != 1 then ExtraLeft else error, SkipBlanks(s, st.p))
  }

  /** The turns of the loop from a state on. */
  function Run(s: string, st: State): Result
    requires st.p <= |s|
    decreases |s| - st.p
  {
    StepMoves(s, st);
    match Step(s, st)
    case Next(st1) => Run(s, st1)
    case Stop(st1, error) => Conclude(s, st1, error)
    case Stray => Undefined
  }

  const INITIAL := State(0, [], [])

  /** kson_parse_core, as a function. */
  function Parse(s: string): Result {
    Run(s, INITIAL)
  }

  /** Before anything is read there is no node, and with one element on the stack, or one that a colon follows, there is
      one; the lowest element is a node. */
  predicate Lone(st: State) {
    && (st.stack == [] ==> st.nodes == [])
    && (st.stack != [] ==> st.stack[0] >= 0)
    && (|st.stack| == 1 || (|st.stack| == 2 && st.stack[1] == KEY_MARK) ==> |st.nodes| == 1)
  }

  lemma StepLone(s: string, st: State)
    requires Lone(st)
    ensures Step(s, st).Next? ==> Lone(Step(s, st).st)
    ensures var t := Step(s, st);
            t.Stop? && |t.last.stack| == 1 ==> t.error != NoKey && (t.error == ExtraRight ==> |t.last.nodes| == 1)
  {
    hide FindMark, Scan, SkipBlanks, Within;
  }

  lemma {:induction false} RunReports(s: string, st: State)
    requires st.p <= |s| && Lone(st)
    ensures var r := Run(s, st);
            r.Parsed? ==> r.error != NoKey && (r.error == ExtraRight ==> |r.nodes| == 1)
    decreases |s| - st.p
  {
    StepMoves(s, st);
    StepLone(s, st);
    hide Step;
    if Step(s, st).Next? {
      RunReports(s, Step(s, st).st);
    }
  }

  /** No text is reported as lacking a key: the report of brackets that are left open takes its place. An extra right
      bracket is reported only for a text with one value in front of it. */
  lemma ErrorsReported(s: string)
    ensures var r := Parse(s); r.Parsed? ==> r.error != NoKey && (r.error == ExtraRight ==> |r.nodes| == 1)
  {
    RunReports(s, INITIAL);
  }

  method SkipBlanksFrom(s: string, from: nat) returns (p: nat)
    requires from <= |s|
    ensures p == SkipBlanks(s, from)
  {
    p := from;
    while p < |s| && IsBlank(s[p])
      invariant p <= |s| && SkipBlanks(s, p) == SkipBlanks(s, from)
    {
      p := p + 1;
    }
  }

  method ScanFrom(s: string, from: nat, stops: string) returns (q: nat)
    ensures q == Scan(s, from, stops)
  {
    q := from;
    while q < |s| && s[q] !in stops
      invariant Scan(s, q, stops) == Scan(s, from, stops)
      decreases |s| - q
    {
      if s[q] == '\\' {
        q := q + 1;
      }
      q := q + 1;
    }
  }

  method FindMarkIn(stack: seq<int>, mark: int) returns (i: int)
    ensures i == FindMark(stack, mark)
  {
    i := |stack| - 1;
    assert stack[..i + 1] == stack;
    while i >= 0 && stack[i] != mark
      invariant -1 <= i < |stack| && FindMark(stack[..i + 1], mark) == FindMark(stack, mark)
    {
      assert stack[..i + 1][..i] == stack[..i];
      i := i - 1;
    }
  }

  method OpenNode(p: nat, stack: seq<int>, nodes: seq<Node>, brace: bool) returns (stack1: seq<int>, nodes1: seq<Node>)
    ensures State(p + 1, stack1, nodes1) == Open(State(p, stack, nodes), brace)
  {
    stack1, nodes1 := stack, nodes;
    if |stack| < 2 || stack[|stack| - 1] != KEY_MARK {
      stack1 := stack1 + [|nodes|];
      nodes1 := nodes1 + [Node(None, Unset, Str(None))];
      stack1 := stack1 + [MarkOf(brace)];
    } else {
      stack1 := stack1[|stack| - 1 := MarkOf(brace)];
    }
  }

  method CloseNode(p: nat, stack: seq<int>, nodes: seq<Node>, brace: bool) returns (turn: Turn)
    ensures turn == Close(State(p, stack, nodes), brace)
  {
    var start := FindMarkIn(stack, MarkOf(brace));
    if start < 0 {
      return Stop(State(p, stack, nodes), ExtraRight);
    }
    if start == 0 || !HasText(nodes, stack[start - 1]) || !Within(stack[start + 1..], |nodes|) {
      return Stray;
    }
    var u := stack[start - 1];
    var nodes1 := nodes[u := Node(nodes[u].value.text, KindOf(brace), Children(stack[start + 1..]))];
    if start == 1 {
      return Stop(State(p, stack[..start], nodes1), NoError);
    }
    turn := Next(State(p + 1, stack[..start], nodes1));
  }

  method ReadStringAt(json: string, p: nat, stack: seq<int>, nodes: seq<Node>) returns (turn: Turn)
    requires p < |json|
    ensures turn == ReadString(json, State(p, stack, nodes))
  {
    var c, stack1, nodes1, u := json[p], stack, nodes, 0;
    if |stack| >= 2 && stack[|stack| - 1] == KEY_MARK {
      stack1 := stack1[..|stack1| - 1];
      if !HasText(nodes, stack1[|stack1| - 1]) {
        return Stray;
      }
      u := stack1[|stack1| - 1];
      nodes1 := nodes1[u := nodes1[u].(key := nodes1[u].value.text)];
    } else {
      u := |nodes|;
      stack1 := stack1 + [u];
      nodes1 := nodes1 + [Node(None, Unset, Str(None))];
    }
    var quote := QuoteOf(c);
    var from := if quote == NoQuote then p else p + 1;
    var q := ScanFrom(json, from, if quote == NoQuote then PLAIN_STOPS else [c]);
    if q > |json| || (quote != NoQuote && q == |json|) {
      return Stray;
    }
    nodes1 := nodes1[u := Node(nodes1[u].key, Text(quote), Str(Some(json[from..q])))];
    turn := Next(State(if quote == NoQuote then q else q + 1, stack1, nodes1));
  }

  /** kson_parse_core: the nodes, the error and how much has been read; the stack and the array of nodes change in
      place. */
  method ParseCore(json: string) returns (r: Result)
    ensures r == Parse(json)
  {
    hide Open, Close, ReadString, Conclude;
    var p, stack, nodes, error := 0, [], [], NoError;
    while p < |json|
      invariant p <= |json| && Parse(json) == Run(json, State(p, stack, nodes)) && error == NoError
      decreases |json| - p
    {
      StepMoves(json, State(p, stack, nodes));
      ghost var step := Step(json, State(p, stack, nodes));
      p := SkipBlanksFrom(json, p);
      if p == |json| {
        break;
      }
      if json[p] == ',' {
        p := p + 1;
      } else if json[p] == '[' || json[p] == '{' {
        stack, nodes := OpenNode(p, stack, nodes, json[p] == '{');
        p := p + 1;
        assert step == Next(State(p, stack, nodes));
      } else if json[p] == ']' || json[p] == '}' || json[p] != ':' {
        var turn;
        if json[p] == ']' || json[p] == '}' {
          turn := CloseNode(p, stack, nodes, json[p] == '}');
        } else {
          turn := ReadStringAt(json, p, stack, nodes);
        }
        assert step == turn;
        match turn {
          case Next(st) =>
            p, stack, nodes := st.p, st.stack, st.nodes;
          case Stop(st, e) =>
            p, stack, nodes, error := st.p, st.stack, st.nodes, e;
            break;
          case Stray =>
            return Undefined;
        }
      } else {
        if stack == [] || stack[|stack| - 1] == KEY_MARK {
          error := NoKey;
          break;
        }
        stack := stack + [KEY_MARK];
        p := p + 1;
      }
    }
    assert Parse(json) == Conclude(json, State(p, stack, nodes), error);
    r := Finish(json, p, stack, nodes, error);
  }

  method Finish(json: string, p: nat, stack: seq<int>, nodes: seq<Node>, error: Error) returns (r: Result)
    requires p <= |json|
    ensures r == Conclude(json, State(p, stack, nodes), error)
  {
    var q := SkipBlanksFrom(json, p);
    r := Parsed(nodes, if |stack| != 1 then ExtraLeft else error, q);
  }
}
