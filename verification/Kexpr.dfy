/** kexpr: expressions from tokens to postfix order by the shunting-yard algorithm, and their evaluation on a stack. */
module Kexpr {
  const KEO_POS := 1
  const KEO_NEG := 2
  const KEO_BNOT := 3
  const KEO_LNOT := 4
  const KEO_POW := 5
  const KEO_MUL := 6
  const KEO_DIV := 7
  const KEO_IDIV := 8
  const KEO_MOD := 9
  const KEO_ADD := 10
  const KEO_SUB := 11
  const KEO_LSH := 12
  const KEO_RSH := 13
  const KEO_LT := 14
  const KEO_LE := 15
  const KEO_GT := 16
  const KEO_GE := 17
  const KEO_EQ := 18
  const KEO_NE := 19
  const KEO_BAND := 20
  const KEO_BXOR := 21
  const KEO_BOR := 22
  const KEO_LAND := 23
  const KEO_LOR := 24

  /** ke_op: for each operator its level, 1 for the tightest, doubled, plus one if it is right-associative. */
  const KE_OP: seq<nat> := [0, 3, 3, 3, 3, 5, 6, 6, 6, 6, 8, 8, 10, 10, 12, 12, 12, 12, 14, 14, 16, 18, 20, 22, 24]

  type Op = x: nat | KEO_POS <= x <= KEO_LOR witness KEO_POS

  function Level(op: Op): nat {
    if op <= KEO_LNOT then 1
    else if op == KEO_POW then 2
    else if op < KEO_ADD then 3
    else if op <= KEO_SUB then 4
    else if op <= 13 then 5
    else if op <= 17 then 6
    else if op <= 19 then 7
    else op - 12
  }

  predicate RightAssoc(op: Op) {
    op <= KEO_POW
  }

  /** Levels and associativity are what the table holds. */
  lemma TableHolds(op: Op)
    ensures KE_OP[op] / 2 == Level(op) && (KE_OP[op] % 2 == 1 <==> RightAssoc(op))
  {
  }

  predicate Unary(op: Op) {
    op <= KEO_LNOT
  }

  /** The operators by precedence, as in C, with the power operator behind the unary ones. */
  const GROUPS: seq<set<nat>> := [
    {KEO_POS, KEO_NEG, KEO_BNOT, KEO_LNOT}, {KEO_POW}, {KEO_MUL, KEO_DIV, KEO_IDIV, KEO_MOD}, {KEO_ADD, KEO_SUB},
    {KEO_LSH, KEO_RSH}, {KEO_LT, KEO_LE, KEO_GT, KEO_GE}, {KEO_EQ, KEO_NE}, {KEO_BAND}, {KEO_BXOR}, {KEO_BOR},
    {KEO_LAND}, {KEO_LOR}]

  /** Operators of one group, and only they, have one level; the first two groups associate to the right. */
  lemma LevelIsGroup(op: Op, i: nat)
    requires i < |GROUPS| && op in GROUPS[i]
    ensures Level(op) == i + 1 && (Unary(op) <==> i == 0) && (RightAssoc(op) <==> i <= 1)
  {
  }

  /** Every operator is in a group. */
  lemma EveryOpGrouped(op: Op) returns (i: nat)
    ensures i < |GROUPS| && op in GROUPS[i]
  {
    i := Level(op) - 1;
    if i < 4 {
      assert op in GROUPS[i];
    } else if i < 8 {
      assert op in GROUPS[i];
    } else {
      assert op in GROUPS[i];
    }
  }

  /** What stands between the operands; plus and minus are each one sign for two operators. */
  datatype Symbol = Plus | Minus | Other(op: Op)

  datatype Token<V> = LParen | RParen | Comma | Value(v: V) | Name(f: string) | Sign(s: Symbol)

  /** An element of the output or of the operator stack. */
  datatype Element<V> = Val(v: V) | Operator(op: Op) | Func(f: string, nArgs: int) | Open

  datatype Error = NoError | ExtraRightParen | NotInCall | ExtraLeftParen | WrongArgs

  datatype State<V> = State(out: seq<Element<V>>, ops: seq<Element<V>>, lastIsVal: bool, err: Error)

  /** ke_read_token: the operator that a sign stands for. */
  function ReadOp(s: Symbol, lastIsVal: bool): Op {
    match s
    case Plus => if lastIsVal then KEO_ADD else KEO_POS
    case Minus => if lastIsVal then KEO_SUB else KEO_NEG
    case Other(op) => op
  }

  function SymbolOf(op: Op): Symbol {
    if op == KEO_POS || op == KEO_ADD then Plus
    else if op == KEO_NEG || op == KEO_SUB then Minus
    else Other(op)
  }

  function Top<T>(s: seq<T>): T
    requires s != []
  {
    s[|s| - 1]
  }

  function Pop<T>(s: seq<T>): seq<T>
    requires s != []
  {
    s[..|s| - 1]
  }

  /** An arriving operator leaves the operator on top of the stack where it is. */
  predicate Stops(arriving: Op, top: Op) {
    if RightAssoc(arriving) then Level(arriving) <= Level(top) else Level(arriving) < Level(top)
  }

  /** Moving operators to the output until one stops the arriving one. */
  function PopFor<V>(st: State<V>, op: Op): State<V>
    decreases |st.ops|
  {
    if st.ops == [] || !Top(st.ops).Operator? || Stops(op, Top(st.ops).op) then st
    else PopFor(st.(out := st.out + [Top(st.ops)], ops := Pop(st.ops)), op)
  }

  /** Moving operators to the output until a left parenthesis. */
  function PopToOpen<V>(st: State<V>): State<V>
    decreases |st.ops|
  {
    if st.ops == [] || Top(st.ops).Open? then st
    else PopToOpen(st.(out := st.out + [Top(st.ops)], ops := Pop(st.ops)))
  }

  function Close<V>(st: State<V>): State<V> {
    var s := PopToOpen(st);
    if s.ops == [] then s.(err := ExtraRightParen)
    else
      var t := s.(ops := Pop(s.ops));
      if t.ops != [] && Top(t.ops).Func? then t.(out := t.out + [Top(t.ops)], ops := Pop(t.ops)) else t
  }

  function NextArg<V>(st: State<V>): State<V> {
    var s := PopToOpen(st);
    if |s.ops| < 2 || !s.ops[|s.ops| - 2].Func? then s.(err := NotInCall)
    else
      var f := s.ops[|s.ops| - 2];
      s.(ops := s.ops[|s.ops| - 2 := f.(nArgs := f.nArgs + 1)])
  }

  /** One turn of the loop of ke_parse_core. */
  function Step<V>(st: State<V>, t: Token<V>): State<V> {
    match t
    case LParen => st.(ops := st.ops + [Open])
    case RParen => Close(st)
    case Comma => NextArg(st)
    case Value(v) => st.(out := st.out + [Val(v)], lastIsVal := true)
    case Name(f) => st.(ops := st.ops + [Func(f, 1)], lastIsVal := false)
    case Sign(s) =>
      var op := ReadOp(s, st.lastIsVal);
      var p := PopFor(st, op);
      p.(ops := p.ops + [Operator(op)], lastIsVal := false)
  }

  function Feed<V>(st: State<V>, tokens: seq<Token<V>>): State<V>
    decreases |tokens|
  {
    if st.err != NoError || tokens == [] then st else Feed(Step(st, tokens[0]), tokens[1..])
  }

  /** What an element does to the number of values on the evaluation stack. */
  function Effect<V>(e: Element<V>): int {
    match e
    case Val(_) => 1
    case Operator(op) => if Unary(op) then 0 else -1
    case Func(_, n) => 1 - n
    case Open => 1
  }

  function Balance<V>(out: seq<Element<V>>): int {
    if out == [] then 0 else Balance(out[..|out| - 1]) + Effect(out[|out| - 1])
  }

  /** The lines after the loop: the rest of the operators, and the check of the numbers of arguments. */
  function Finish<V>(st: State<V>): State<V> {
    if st.err != NoError then st
    else
      var s := PopToOpen(st);
      if s.ops != [] then s.(err := ExtraLeftParen)
      else if Balance(s.out) != 1 then s.(err := WrongArgs)
      else s
  }

  function Parsed<V>(tokens: seq<Token<V>>): State<V> {
    Finish(Feed(State([], [], false, NoError), tokens))
  }

  lemma OpFacts(op: Op)
    ensures 1 <= Level(op) <= 12
    ensures RightAssoc(op) <==> Level(op) <= 2
    ensures Unary(op) <==> Level(op) == 1
  {
  }

  /** Expressions with the parentheses they are written with. */
  datatype Expr<V> =
    | Leaf(v: V)
    | Un(op: Op, x: Expr<V>)
    | Bin(op: Op, l: Expr<V>, r: Expr<V>)
    | Paren(x: Expr<V>)
    | Call(f: string, args: Args<V>)

  /** One argument, or an argument after others. */
  datatype Args<V> = First(x: Expr<V>) | Then(before: Args<V>, x: Expr<V>)

  function Count<V>(a: Args<V>): int {
    match a
    case First(_) => 1
    case Then(b, _) => Count(b) + 1
  }

  /** Infix order. */
  function Print<V>(e: Expr<V>): seq<Token<V>> {
    match e
    case Leaf(v) => [Value(v)]
    case Un(op, x) => [Sign(SymbolOf(op))] + Print(x)
    case Bin(op, l, r) => Print(l) + [Sign(SymbolOf(op))] + Print(r)
    case Paren(x) => [LParen] + Print(x) + [RParen]
    case Call(f, args) => [Name(f), LParen] + PrintArgs(args) + [RParen]
  }

  function PrintArgs<V>(a: Args<V>): seq<Token<V>> {
    match a
    case First(x) => Print(x)
    case Then(b, x) => PrintArgs(b) + [Comma] + Print(x)
  }

  /** Postfix order. */
  function Postfix<V>(e: Expr<V>): seq<Element<V>> {
    match e
    case Leaf(v) => [Val(v)]
    case Un(op, x) => Postfix(x) + [Operator(op)]
    case Bin(op, l, r) => Postfix(l) + Postfix(r) + [Operator(op)]
    case Paren(x) => Postfix(x)
    case Call(f, args) => PostfixArgs(args) + [Func(f, Count(args))]
  }

  function PostfixArgs<V>(a: Args<V>): seq<Element<V>> {
    match a
    case First(x) => Postfix(x)
    case Then(b, x) => PostfixArgs(b) + Postfix(x)
  }

  function LevelOf<V>(e: Expr<V>): nat {
    match e
    case Un(op, _) => Level(op)
    case Bin(op, _, _) => Level(op)
    case _ => 0
  }

  /** The expression begins, after left parentheses, with a plus or minus that is meant as a sign. */
  predicate StartsSigned<V>(e: Expr<V>) {
    match e
    case Leaf(_) => false
    case Un(op, _) => op == KEO_POS || op == KEO_NEG
    case Bin(_, l, _) => StartsSigned(l)
    case Paren(x) => StartsSigned(x)
    case Call(_, _) => false
  }

  /** The parentheses are there that precedence and associativity need, whatever the arguments begin with. */
  predicate Leveled<V>(e: Expr<V>) {
    match e
    case Leaf(_) => true
    case Un(op, x) => Unary(op) && Leveled(x) && LevelOf(x) <= 1
    case Bin(op, l, r) =>
      && !Unary(op) && Leveled(l) && Leveled(r)
      && (if RightAssoc(op) then LevelOf(l) < Level(op) && LevelOf(r) <= Level(op)
          else LevelOf(l) <= Level(op) && LevelOf(r) < Level(op))
    case Paren(x) => Leveled(x)
    case Call(_, args) => LeveledArgs(args)
  }

  predicate LeveledArgs<V>(a: Args<V>) {
    match a
    case First(x) => Leveled(x)
    case Then(b, x) => LeveledArgs(b) && Leveled(x)
  }

  /** No later argument of a call begins with a plus or minus sign. */
  predicate Clean<V>(e: Expr<V>) {
    match e
    case Leaf(_) => true
    case Un(_, x) => Clean(x)
    case Bin(_, l, r) => Clean(l) && Clean(r)
    case Paren(x) => Clean(x)
    case Call(_, args) => CleanArgs(args)
  }

  predicate CleanArgs<V>(a: Args<V>) {
    match a
    case First(x) => Clean(x)
    case Then(b, x) => CleanArgs(b) && Clean(x) && !StartsSigned(x)
  }

  /** An expression as it can be written down for the parser. */
  predicate Formed<V>(e: Expr<V>) {
    Leveled(e) && Clean(e)
  }

  predicate FormedArgs<V>(a: Args<V>) {
    LeveledArgs(a) && CleanArgs(a)
  }

  lemma FormedUn<V>(op: Op, x: Expr<V>)
    requires Formed(Un(op, x))
    ensures Unary(op) && Formed(x) && LevelOf(x) <= 1
  {
  }

  lemma FormedBin<V>(op: Op, l: Expr<V>, r: Expr<V>)
    requires Formed(Bin(op, l, r))
    ensures !Unary(op) && Formed(l) && Formed(r)
    ensures if RightAssoc(op) then LevelOf(l) < Level(op) && LevelOf(r) <= Level(op)
            else LevelOf(l) <= Level(op) && LevelOf(r) < Level(op)
  {
  }

  lemma FormedLast<V>(a: Args<V>)
    requires FormedArgs(a)
    ensures Formed(LastArg(a))
  {
  }

  /** What of an expression is in the output, and what on the operator stack, once all of it has been read. */
  ghost function Output<V>(e: Expr<V>): seq<Element<V>> {
    match e
    case Un(op, x) => Output(x)
    case Bin(op, l, r) => Postfix(l) + Output(r)
    case _ => Postfix(e)
  }

  ghost function Pending<V>(e: Expr<V>): seq<Element<V>> {
    match e
    case Un(op, x) => [Operator(op)] + Pending(x)
    case Bin(op, l, r) => [Operator(op)] + Pending(r)
    case _ => []
  }

  ghost function Rev<T>(s: seq<T>): seq<T> {
    if s == [] then [] else Rev(s[1..]) + [s[0]]
  }

  lemma {:induction false} RevLast<T>(s: seq<T>)
    requires s != []
    ensures Rev(s) == [Top(s)] + Rev(Pop(s))
  {
    if |s| > 1 {
      RevLast(s[1..]);
      assert Pop(s)[1..] == Pop(s[1..]);
    }
  }

  /** Pending operators are no looser than the expression. */
  ghost predicate Tight<V>(pend: seq<Element<V>>, level: nat) {
    forall i :: 0 <= i < |pend| ==> pend[i].Operator? && Level(pend[i].op) <= level
  }

  /** An operator that is pending before others comes out after them. */
  lemma PendingFirst<V>(out: seq<Element<V>>, pend: seq<Element<V>>, post: seq<Element<V>>, op: Op, level: nat)
    requires out + Rev(pend) == post && Tight(pend, level) && level <= Level(op)
    ensures out + Rev([Operator(op)] + pend) == post + [Operator(op)] && Tight([Operator(op)] + pend, Level(op))
  {
    hide Level;
    assert ([Operator(op)] + pend)[1..] == pend;
    assert out + (Rev(pend) + [Operator(op)]) == out + Rev(pend) + [Operator(op)];
  }

  lemma {:induction false} PendingIs<V>(e: Expr<V>)
    requires Formed(e)
    ensures Output(e) + Rev(Pending(e)) == Postfix(e) && Tight(Pending(e), LevelOf(e))
  {
    match e
    case Un(op, x) =>
      OpFacts(op);
      FormedUn(op, x);
      hide Formed, Level, Rev, Tight;
      PendingIs(x);
      PendingFirst(Output(x), Pending(x), Postfix(x), op, LevelOf(x));
    case Bin(op, l, r) =>
      FormedBin(op, l, r);
      hide Formed, Level, Rev, Tight;
      PendingIs(r);
      PendingFirst(Output(r), Pending(r), Postfix(r), op, LevelOf(r));
      assert Postfix(l) + Output(r) + Rev(Pending(e)) == Postfix(l) + (Output(r) + Rev(Pending(e)));
    case _ =>
  }

  lemma {:induction false} FeedAppend<V>(st: State<V>, a: seq<Token<V>>, b: seq<Token<V>>)
    ensures Feed(st, a + b) == Feed(Feed(st, a), b)
    decreases |a|
  {
    if a == [] || st.err != NoError {
      assert a == [] ==> a + b == b;
    } else {
      assert (a + b)[1..] == a[1..] + b;
      FeedAppend(Step(st, a[0]), a[1..], b);
    }
  }

  lemma FeedOne<V>(st: State<V>, t: Token<V>)
    requires st.err == NoError
    ensures Feed(st, [t]) == Step(st, t)
  {
    assert [t][1..] == [];
    assert Feed(Step(st, t), []) == Step(st, t);
  }

  /** The operators of an expression of this level do not move the top of the stack. */
  ghost predicate Holds<V>(ops: seq<Element<V>>, level: nat) {
    ops == [] || match Top(ops)
                 case Operator(b) => level < Level(b) || (level == Level(b) && RightAssoc(b))
                 case Open => true
                 case Val(_) => false
                 case Func(_, _) => false
  }

  lemma {:induction false} PopPending<V>(st: State<V>, base: seq<Element<V>>, pend: seq<Element<V>>, op: Op)
    requires st.ops == base + pend && Holds(base, Level(op))
    requires forall i :: 0 <= i < |pend| ==> pend[i].Operator? && !Stops(op, pend[i].op)
    ensures PopFor(st, op) == st.(out := st.out + Rev(pend), ops := base)
    decreases |pend|
  {
    OpFacts(op);
    if pend == [] {
      assert st.ops == base;
      if base != [] && Top(base).Operator? {
        OpFacts(Top(base).op);
      }
    } else {
      hide Rev, Level;
      RevLast(pend);
      assert Pop(st.ops) == base + Pop(pend) && Top(st.ops) == Top(pend);
      assert st.out + [Top(pend)] + Rev(Pop(pend)) == st.out + ([Top(pend)] + Rev(Pop(pend)));
      PopPending(st.(out := st.out + [Top(st.ops)], ops := Pop(st.ops)), base, Pop(pend), op);
    }
  }

  lemma {:induction false} PopAll<V>(st: State<V>, base: seq<Element<V>>, pend: seq<Element<V>>)
    requires st.ops == base + pend && (base == [] || Top(base).Open?)
    requires forall i :: 0 <= i < |pend| ==> pend[i].Operator?
    ensures PopToOpen(st) == st.(out := st.out + Rev(pend), ops := base)
    decreases |pend|
  {
    if pend == [] {
      assert st.ops == base;
    } else {
      hide Rev, Level;
      RevLast(pend);
      assert Pop(st.ops) == base + Pop(pend) && Top(st.ops) == Top(pend);
      assert st.out + [Top(pend)] + Rev(Pop(pend)) == st.out + ([Top(pend)] + Rev(Pop(pend)));
      PopAll(st.(out := st.out + [Top(st.ops)], ops := Pop(st.ops)), base, Pop(pend));
    }
  }

  /** The reading of an expression may start here: the stack's top stays put, and a leading sign is read as one. */
  ghost predicate Ready<V>(st: State<V>, e: Expr<V>) {
    st.err == NoError && Formed(e) && Holds(st.ops, LevelOf(e)) && (st.lastIsVal ==> !StartsSigned(e))
  }

  /** The state once all of e has been read. */
  ghost function Read<V>(st: State<V>, e: Expr<V>): State<V> {
    State(st.out + Output(e), st.ops + Pending(e), true, NoError)
  }

  /** The sign of an operator is read as that operator, unary or binary. */
  lemma SignReadsAs(op: Op, lastIsVal: bool)
    requires if Unary(op) then lastIsVal ==> op != KEO_POS && op != KEO_NEG else lastIsVal
    ensures ReadOp(SymbolOf(op), lastIsVal) == op
  {
  }

  /** The arriving operator moves what it must to the output and goes on the stack. */
  lemma OperatorArrives<V>(st: State<V>, base: seq<Element<V>>, pend: seq<Element<V>>, op: Op)
    requires st.err == NoError && st.ops == base + pend && Holds(base, Level(op))
    requires forall i :: 0 <= i < |pend| ==> pend[i].Operator? && !Stops(op, pend[i].op)
    requires if Unary(op) then st.lastIsVal ==> op != KEO_POS && op != KEO_NEG else st.lastIsVal
    ensures Feed(st, [Sign(SymbolOf(op))]) == State(st.out + Rev(pend), base + [Operator(op)], false, NoError)
  {
    FeedOne(st, Sign(SymbolOf(op)));
    SignReadsAs(op, st.lastIsVal);
    PopPending(st, base, pend, op);
  }

  lemma OperatorHolds<V>(base: seq<Element<V>>, op: Op, level: nat)
    requires level < Level(op) || (level == Level(op) && RightAssoc(op))
    ensures Holds(base + [Operator(op)], level)
  {
    hide Level;
  }

  lemma UnarySign<V>(st: State<V>, op: Op)
    requires st.err == NoError && Holds(st.ops, Level(op)) && Unary(op)
    requires st.lastIsVal ==> op != KEO_POS && op != KEO_NEG
    ensures Feed(st, [Sign(SymbolOf(op))]) == State(st.out, st.ops + [Operator(op)], false, NoError)
  {
    hide Level, Feed, ReadOp, SymbolOf, Stops, Holds, Rev;
    assert st.ops == st.ops + [];
    OperatorArrives(st, st.ops, [], op);
    RevNone<Element<V>>();
    assert st.out + [] == st.out;
  }

  lemma UnaryRead<V>(out: seq<Element<V>>, ops: seq<Element<V>>, op: Op, x: Expr<V>)
    ensures out + Output(Un(op, x)) == out + Output(x)
    ensures ops + Pending(Un(op, x)) == ops + [Operator(op)] + Pending(x)
  {
  }

  lemma FeedUnary<V>(st: State<V>, op: Op, x: Expr<V>)
    requires Ready(st, Un(op, x))
    ensures var st1 := Feed(st, [Sign(SymbolOf(op))]); Ready(st1, x) && Read(st1, x) == Read(st, Un(op, x))
  {
    OpFacts(op);
    FormedUn(op, x);
    hide Formed, Level, Feed, ReadOp, SymbolOf, Holds, Output, Pending;
    UnarySign(st, op);
    OperatorHolds(st.ops, op, LevelOf(x));
    UnaryRead(st.out, st.ops, op, x);
  }

  lemma RevNone<T>()
    ensures Rev<T>([]) == []
  {
  }

  lemma LeftReady<V>(st: State<V>, op: Op, l: Expr<V>, r: Expr<V>)
    requires Ready(st, Bin(op, l, r))
    ensures Ready(st, l)
  {
    HoldsTighter(st.ops, Level(op), LevelOf(l));
  }

  lemma InfixArrives<V>(out: seq<Element<V>>, read: seq<Element<V>>, post: seq<Element<V>>, base: seq<Element<V>>,
      pend: seq<Element<V>>, op: Op)
    requires Holds(base, Level(op)) && !Unary(op) && read + Rev(pend) == post
    requires forall i :: 0 <= i < |pend| ==> pend[i].Operator? && !Stops(op, pend[i].op)
    ensures Feed(State(out + read, base + pend, true, NoError), [Sign(SymbolOf(op))])
        == State(out + post, base + [Operator(op)], false, NoError)
  {
    OperatorArrives(State(out + read, base + pend, true, NoError), base, pend, op);
    assert out + read + Rev(pend) == out + (read + Rev(pend));
  }

  lemma FeedBinarySign<V>(st: State<V>, op: Op, l: Expr<V>)
    requires st.err == NoError && Formed(l) && Holds(st.ops, Level(op)) && !Unary(op)
    requires if RightAssoc(op) then LevelOf(l) < Level(op) else LevelOf(l) <= Level(op)
    ensures Feed(Read(st, l), [Sign(SymbolOf(op))])
        == State(st.out + Postfix(l), st.ops + [Operator(op)], false, NoError)
  {
    PendingIs(l);
    LooserPops(op, l);
    InfixArrives(st.out, Output(l), Postfix(l), st.ops, Pending(l), op);
  }

  lemma FeedBinary<V>(st: State<V>, op: Op, l: Expr<V>, r: Expr<V>)
    requires Ready(st, Bin(op, l, r))
    ensures var st1 := State(st.out + Postfix(l), st.ops + [Operator(op)], false, NoError);
        Ready(st1, r)
        && Read(st1, r) == Read(st, Bin(op, l, r))
  {
    OpFacts(op);
    FormedBin(op, l, r);
    hide Formed, Level;
    assert st.out + Postfix(l) + Output(r) == st.out + (Postfix(l) + Output(r));
    assert st.ops + [Operator(op)] + Pending(r) == st.ops + ([Operator(op)] + Pending(r));
  }

  lemma HoldsTighter<V>(ops: seq<Element<V>>, level: nat, tighter: nat)
    requires Holds(ops, level) && tighter <= level
    ensures Holds(ops, tighter)
  {
  }

  lemma LooserPops<V>(op: Op, l: Expr<V>)
    requires Formed(l) && !Unary(op) && (if RightAssoc(op) then LevelOf(l) < Level(op) else LevelOf(l) <= Level(op))
    ensures forall i :: 0 <= i < |Pending(l)| ==> Pending(l)[i].Operator? && !Stops(op, Pending(l)[i].op)
  {
    PendingIs(l);
  }

  /** A right parenthesis that closes what has been read since the left one. */
  lemma CloseAll<V>(st: State<V>, base: seq<Element<V>>, pend: seq<Element<V>>)
    requires st.err == NoError && st.ops == base + [Open] + pend
    requires forall i :: 0 <= i < |pend| ==> pend[i].Operator?
    ensures Feed(st, [RParen]) == if base != [] && Top(base).Func?
        then State(st.out + Rev(pend) + [Top(base)], Pop(base), st.lastIsVal, NoError)
                                  else State(st.out + Rev(pend), base, st.lastIsVal, NoError)
  {
    FeedOne(st, RParen);
    PopAll(st, base + [Open], pend);
    assert Pop(base + [Open]) == base;
  }

  lemma FeedParen<V>(st: State<V>, x: Expr<V>)
    requires Ready(st, Paren(x))
    ensures Ready(Feed(st, [LParen]), x)
    ensures Feed(Read(Feed(st, [LParen]), x), [RParen]) == Read(st, Paren(x))
  {
    hide Feed, PopToOpen, Rev;
    FeedOne(st, LParen);
    PendingIs(x);
    CloseAll(Read(Step(st, LParen), x), st.ops, Pending(x));
    assert st.out + Output(x) + Rev(Pending(x)) == st.out + (Output(x) + Rev(Pending(x)));
    assert st.ops + [] == st.ops;
  }

  /** The state while the arguments of f are read, after the last argument so far. */
  ghost function ReadArgs<V>(st: State<V>, f: string, a: Args<V>): State<V> {
    match a
    case First(x) => Read(State(st.out, st.ops + [Func(f, 1), Open], false, NoError), x)
    case Then(b, x) => Read(State(st.out + PostfixArgs(b), st.ops + [Func(f, Count(a)), Open], true, NoError), x)
  }

  ghost function LastArg<V>(a: Args<V>): Expr<V> {
    a.x
  }

  lemma ReadArgsIs<V>(st: State<V>, f: string, a: Args<V>)
    requires FormedArgs(a)
    ensures var s, x := ReadArgs(st, f, a), LastArg(a);
            && s.err == NoError && s.lastIsVal
            && s.ops == st.ops + [Func(f, Count(a))] + [Open] + Pending(x)
            && s.out + Rev(Pending(x)) == st.out + PostfixArgs(a)
            && (forall i :: 0 <= i < |Pending(x)| ==> Pending(x)[i].Operator?)
  {
    var x := LastArg(a);
    FormedLast(a);
    hide FormedArgs, Formed, Output, Level;
    PendingIs(x);
    assert [Func(f, Count(a)), Element<V>.Open] == [Func(f, Count(a))] + [Open];
    if a.Then? {
      assert st.out + PostfixArgs(a.before) + Output(x) + Rev(Pending(x))
          == st.out + (PostfixArgs(a.before) + (Output(x) + Rev(Pending(x))));
    } else {
      assert st.out + Output(x) + Rev(Pending(x)) == st.out + (Output(x) + Rev(Pending(x)));
    }
  }

  /** A comma moves what has been read of an argument to the output and counts one argument more. */
  lemma NextArgIs<V>(s: State<V>, base: seq<Element<V>>, f: string, n: int, pend: seq<Element<V>>)
    requires s.err == NoError && s.ops == base + [Func(f, n)] + [Open] + pend
    requires forall i :: 0 <= i < |pend| ==> pend[i].Operator?
    ensures Feed(s, [Comma]) == State(s.out + Rev(pend), base + [Func(f, n + 1)] + [Open], s.lastIsVal, NoError)
  {
    FeedOne(s, Comma);
    var ops := base + [Func(f, n)] + [Open];
    PopAll(s, ops, pend);
    assert ops[|ops| - 2] == Func(f, n);
    assert ops[|ops| - 2 := Func(f, n + 1)] == base + [Func(f, n + 1)] + [Open];
  }

  lemma CommaArrives<V>(st: State<V>, f: string, b: Args<V>, x: Expr<V>)
    requires FormedArgs(Then(b, x)) && st.err == NoError
    ensures var st1 := Feed(ReadArgs(st, f, b), [Comma]); Ready(st1, x) && Read(st1, x) == ReadArgs(st, f, Then(b, x))
  {
    ReadArgsIs(st, f, b);
    NextArgIs(ReadArgs(st, f, b), st.ops, f, Count(b), Pending(LastArg(b)));
    CommaLeaves(st, f, b, x);
  }

  lemma CommaLeaves<V>(st: State<V>, f: string, b: Args<V>, x: Expr<V>)
    requires FormedArgs(Then(b, x))
    ensures var st1 := State(st.out + PostfixArgs(b), st.ops + [Func(f, Count(b) + 1)] + [Open], true, NoError);
            Ready(st1, x) && Read(st1, x) == ReadArgs(st, f, Then(b, x))
  {
    hide *;
    LaterArgument(b, x);
    OpenHolds<V>(st.ops + [Func(f, Count(b) + 1)], LevelOf(x));
    ReadyHere(State(st.out + PostfixArgs(b), st.ops + [Func(f, Count(b) + 1)] + [Open], true, NoError), x);
    ReadArgsThen(st, f, b, x);
  }

  lemma LaterArgument<V>(b: Args<V>, x: Expr<V>)
    requires FormedArgs(Then(b, x))
    ensures Formed(x) && !StartsSigned(x)
  {
  }

  lemma ReadyHere<V>(st: State<V>, x: Expr<V>)
    requires st.err == NoError && Formed(x) && Holds(st.ops, LevelOf(x)) && !StartsSigned(x)
    ensures Ready(st, x)
  {
  }

  lemma ReadArgsThen<V>(st: State<V>, f: string, b: Args<V>, x: Expr<V>)
    ensures ReadArgs(st, f, Then(b, x))
        == Read(State(st.out + PostfixArgs(b), st.ops + [Func(f, Count(b) + 1)] + [Open], true, NoError), x)
  {
    hide Read, PostfixArgs;
    assert st.ops + [Func(f, Count(b) + 1)] + [Open] == st.ops + [Func(f, Count(b) + 1), Open];
  }

  lemma OpenHolds<V>(base: seq<Element<V>>, level: nat)
    ensures Holds(base + [Open], level)
  {
  }

  lemma CallCloses<V>(st: State<V>, f: string, a: Args<V>)
    requires FormedArgs(a) && st.err == NoError
    ensures Feed(ReadArgs(st, f, a), [RParen]) == Read(st, Call(f, a))
  {
    ReadArgsIs(st, f, a);
    var s, x := ReadArgs(st, f, a), LastArg(a);
    CloseAll(s, st.ops + [Func(f, Count(a))], Pending(x));
    assert Pop(st.ops + [Func(f, Count(a))]) == st.ops;
    assert st.out + PostfixArgs(a) + [Func(f, Count(a))] == st.out + Postfix(Call(f, a));
    assert st.ops + Pending(Call(f, a)) == st.ops;
  }

  lemma CallOpens<V>(st: State<V>, f: string)
    requires st.err == NoError
    ensures Feed(st, [Name(f), LParen]) == State(st.out, st.ops + [Func(f, 1), Open], false, NoError)
  {
    assert [Name(f), Token<V>.LParen] == [Name(f)] + [LParen];
    FeedAppend(st, [Name(f)], [LParen]);
    FeedOne(st, Name(f));
    FeedOne(Step(st, Name(f)), LParen);
    assert st.ops + [Func(f, 1)] + [Open] == st.ops + [Func(f, 1), Open];
  }

  /** Reading an expression in infix order leaves its postfix order in the output and among the pending operators. */
  lemma {:induction false} FeedExpr<V>(st: State<V>, e: Expr<V>)
    requires Ready(st, e)
    ensures Feed(st, Print(e)) == Read(st, e)
    decreases e, 1
  {
    match e
    case Leaf(v) =>
      FeedOne(st, Value(v));
      assert st.ops + Pending(e) == st.ops;
    case Un(op, x) =>
      FeedAppend(st, [Sign(SymbolOf(op))], Print(x));
      FeedUnary(st, op, x);
      FeedExpr(Feed(st, [Sign(SymbolOf(op))]), x);
    case Bin(op, l, r) =>
      FeedAppend(st, Print(l) + [Sign(SymbolOf(op))], Print(r));
      FeedAppend(st, Print(l), [Sign(SymbolOf(op))]);
      LeftReady(st, op, l, r);
      FeedBinarySign(st, op, l);
      FeedBinary(st, op, l, r);
      FeedExpr(st, l);
      FeedExpr(Feed(Read(st, l), [Sign(SymbolOf(op))]), r);
    case Paren(x) =>
      FeedAppend(st, [LParen] + Print(x), [RParen]);
      FeedAppend(st, [LParen], Print(x));
      FeedParen(st, x);
      FeedExpr(Feed(st, [LParen]), x);
    case Call(f, args) =>
      FeedAppend(st, [Name(f), LParen] + PrintArgs(args), [RParen]);
      FeedArgs(st, f, args);
      CallCloses(st, f, args);
  }

  lemma {:induction false} FeedArgs<V>(st: State<V>, f: string, a: Args<V>)
    requires FormedArgs(a) && st.err == NoError
    ensures Feed(st, [Name(f), LParen] + PrintArgs(a)) == ReadArgs(st, f, a)
    decreases a, 0
  {
    var start := [Name(f), LParen];
    match a
    case First(x) =>
      FeedAppend(st, start, Print(x));
      CallOpens(st, f);
      FeedExpr(Feed(st, start), x);
    case Then(b, x) =>
      assert start + (PrintArgs(b) + [Comma] + Print(x)) == start + PrintArgs(b) + [Comma] + Print(x);
      FeedAppend(st, start + PrintArgs(b) + [Comma], Print(x));
      FeedAppend(st, start + PrintArgs(b), [Comma]);
      FeedArgs(st, f, b);
      CommaArrives(st, f, b, x);
      FeedExpr(Feed(ReadArgs(st, f, b), [Comma]), x);
  }

  lemma {:induction false} BalanceAppend<V>(a: seq<Element<V>>, b: seq<Element<V>>)
    ensures Balance(a + b) == Balance(a) + Balance(b)
    decreases |b|
  {
    if b == [] {
      assert a + b == a;
    } else {
      assert (a + b)[..|a + b| - 1] == a + b[..|b| - 1];
      BalanceAppend(a, b[..|b| - 1]);
    }
  }

  lemma BalanceOne<V>(e: Element<V>)
    ensures Balance([e]) == Effect(e)
  {
    assert [e][..0] == [];
  }

  /** Postfix order leaves one value for each expression. */
  lemma {:induction false} BalanceOfPostfix<V>(e: Expr<V>)
    requires Formed(e)
    ensures Balance(Postfix(e)) == 1
    decreases e, 1
  {
    match e
    case Leaf(v) => BalanceOne(Val(v));
    case Un(op, x) =>
      BalanceOfPostfix(x);
      BalanceAppend(Postfix(x), [Operator(op)]);
      BalanceOne<V>(Operator(op));
    case Bin(op, l, r) =>
      BalanceOfPostfix(l);
      BalanceOfPostfix(r);
      BalanceAppend(Postfix(l), Postfix(r));
      BalanceAppend(Postfix(l) + Postfix(r), [Operator(op)]);
      BalanceOne<V>(Operator(op));
    case Paren(x) => BalanceOfPostfix(x);
    case Call(f, args) =>
      BalanceOfArgs(args);
      BalanceAppend(PostfixArgs(args), [Func(f, Count(args))]);
      BalanceOne<V>(Func(f, Count(args)));
  }

  lemma {:induction false} BalanceOfArgs<V>(a: Args<V>)
    requires FormedArgs(a)
    ensures Balance(PostfixArgs(a)) == Count(a)
    decreases a, 0
  {
    match a
    case First(x) => BalanceOfPostfix(x);
    case Then(b, x) =>
      BalanceOfArgs(b);
      BalanceOfPostfix(x);
      BalanceAppend(PostfixArgs(b), Postfix(x));
  }

  /** The parser turns the infix order of every well-parenthesized expression into its postfix order. */
  lemma ParseOfPrint<V>(e: Expr<V>)
    requires Formed(e)
    ensures Parsed(Print(e)).err == NoError && Parsed(Print(e)).out == Postfix(e)
  {
    var st := State([], [], false, NoError);
    FeedExpr(st, e);
    PendingIs(e);
    var s := Read(st, e);
    assert s.out == Output(e) && s.ops == [] + Pending(e);
    PopAll(s, [], Pending(e));
    BalanceOfPostfix(e);
  }

  /** Plus and minus are each the sign of two operators; every other operator is the sign of its own. */
  lemma SignsOf(op: Op)
    ensures op in {KEO_POS, KEO_ADD} <==> SymbolOf(op) == Plus
    ensures op in {KEO_NEG, KEO_SUB} <==> SymbolOf(op) == Minus
    ensures op !in {KEO_POS, KEO_NEG, KEO_ADD, KEO_SUB} <==> SymbolOf(op) == Other(op)
  {
  }

  lemma LeafIs<V>(v: V)
    ensures var e: Expr<V> := Leaf(v); Formed(e) && LevelOf(e) == 0 && Print(e) == [Value(v)] && Postfix(e) == [Val(v)]
  {
  }

  lemma BinIs<V>(op: Op, l: Expr<V>, r: Expr<V>)
    requires !Unary(op) && Formed(l) && Formed(r)
    requires if RightAssoc(op) then LevelOf(l) < Level(op) && LevelOf(r) <= Level(op)
             else LevelOf(l) <= Level(op) && LevelOf(r) < Level(op)
    ensures var e := Bin(op, l, r);
            && Formed(e) && LevelOf(e) == Level(op) && Print(e) == Print(l) + [Sign(SymbolOf(op))] + Print(r)
            && Postfix(e) == Postfix(l) + Postfix(r) + [Operator(op)]
  {
  }

  lemma LeftFirst<V>(p: Op, q: Op, u: V, v: V, w: V)
    requires !Unary(p) && !Unary(q) && (if RightAssoc(q) then Level(p) < Level(q) else Level(p) <= Level(q))
    ensures var e := Bin(q, Bin(p, Leaf(u), Leaf(v)), Leaf(w));
            && Formed(e) && Print(e) == [Value(u), Sign(SymbolOf(p)), Value(v), Sign(SymbolOf(q)), Value(w)]
            && Postfix(e) == [Val(u), Val(v), Operator(p), Val(w), Operator(q)]
  {
    OpFacts(p);
    OpFacts(q);
    LeafIs(u);
    LeafIs(v);
    LeafIs(w);
    BinIs(p, Leaf(u), Leaf(v));
    BinIs(q, Bin(p, Leaf(u), Leaf(v)), Leaf(w));
    hide *;
  }

  lemma RightFirst<V>(p: Op, q: Op, u: V, v: V, w: V)
    requires !Unary(p) && !Unary(q) && (if RightAssoc(p) then Level(q) <= Level(p) else Level(q) < Level(p))
    ensures var e := Bin(p, Leaf(u), Bin(q, Leaf(v), Leaf(w)));
            && Formed(e) && Print(e) == [Value(u), Sign(SymbolOf(p)), Value(v), Sign(SymbolOf(q)), Value(w)]
            && Postfix(e) == [Val(u), Val(v), Val(w), Operator(q), Operator(p)]
  {
    OpFacts(p);
    OpFacts(q);
    LeafIs(u);
    LeafIs(v);
    LeafIs(w);
    BinIs(q, Leaf(v), Leaf(w));
    BinIs(p, Leaf(u), Bin(q, Leaf(v), Leaf(w)));
    hide *;
  }

  /** Of two binary operators between three values the one of the earlier group binds its values first; within a group
      it is the left one, but for the power operator. */
  lemma TwoOperators<V>(p: Op, q: Op, i: nat, j: nat, u: V, v: V, w: V)
    requires 0 < i < |GROUPS| && 0 < j < |GROUPS| && p in GROUPS[i] && q in GROUPS[j]
    ensures var r := Parsed([Value(u), Sign(SymbolOf(p)), Value(v), Sign(SymbolOf(q)), Value(w)]);
            && r.err == NoError
            && r.out == if i < j || (i == j && p != KEO_POW) then [Val(u), Val(v), Operator(p), Val(w), Operator(q)]
                        else [Val(u), Val(v), Val(w), Operator(q), Operator(p)]
  {
    LevelIsGroup(p, i);
    LevelIsGroup(q, j);
    assert i == 1 <==> p == KEO_POW;
    hide *;
    if i < j || (i == j && i != 1) {
      LeftFirst(p, q, u, v, w);
      ParseOfPrint(Bin(q, Bin(p, Leaf(u), Leaf(v)), Leaf(w)));
    } else {
      RightFirst(p, q, u, v, w);
      ParseOfPrint(Bin(p, Leaf(u), Bin(q, Leaf(v), Leaf(w))));
    }
  }

  /** Parentheses put exactly where precedence and associativity need them. */
  function Wrap<V>(e: Expr<V>, level: nat): Expr<V> {
    if LevelOf(e) <= level then e else Paren(e)
  }

  /** The expression with its own parentheses dropped and the needed ones added. */
  function Parenthesized<V>(e: Expr<V>): Expr<V> {
    match e
    case Leaf(_) => e
    case Un(op, x) => Un(op, Wrap(Parenthesized(x), 1))
    case Bin(op, l, r) =>
      if RightAssoc(op) then Bin(op, Wrap(Parenthesized(l), 1), Wrap(Parenthesized(r), Level(op)))
      else Bin(op, Wrap(Parenthesized(l), Level(op)), Wrap(Parenthesized(r), Level(op) - 1))
    case Paren(x) => Parenthesized(x)
    case Call(f, args) => Call(f, ParenthesizedArgs(args))
  }

  function ParenthesizedArgs<V>(a: Args<V>): Args<V> {
    match a
    case First(x) => First(Parenthesized(x))
    case Then(b, x) => Then(ParenthesizedArgs(b), Parenthesized(x))
  }

  /** Operators have the operands they need, wherever parentheses stand. */
  predicate Typed<V>(e: Expr<V>) {
    match e
    case Leaf(_) => true
    case Un(op, x) => Unary(op) && Typed(x)
    case Bin(op, l, r) => !Unary(op) && Typed(l) && Typed(r)
    case Paren(x) => Typed(x)
    case Call(_, args) => TypedArgs(args)
  }

  predicate TypedArgs<V>(a: Args<V>) {
    match a
    case First(x) => Typed(x)
    case Then(b, x) => TypedArgs(b) && Typed(x)
  }

  lemma {:induction false} ParenthesizedIs<V>(e: Expr<V>)
    requires Typed(e) && Clean(e)
    ensures Formed(Parenthesized(e)) && Postfix(Parenthesized(e)) == Postfix(e)
    ensures StartsSigned(Parenthesized(e)) == StartsSigned(e)
    decreases e, 1
  {
    match e
    case Leaf(_) =>
    case Un(op, x) =>
      ParenthesizedIs(x);
      OpFacts(op);
    case Bin(op, l, r) =>
      ParenthesizedIs(l);
      ParenthesizedIs(r);
      OpFacts(op);
    case Paren(x) => ParenthesizedIs(x);
    case Call(f, args) => ParenthesizedArgsAre(args);
  }

  lemma {:induction false} ParenthesizedArgsAre<V>(a: Args<V>)
    requires TypedArgs(a) && CleanArgs(a)
    ensures FormedArgs(ParenthesizedArgs(a)) && PostfixArgs(ParenthesizedArgs(a)) == PostfixArgs(a)
    ensures Count(ParenthesizedArgs(a)) == Count(a)
    decreases a, 0
  {
    match a
    case First(x) => ParenthesizedIs(x);
    case Then(b, x) =>
      ParenthesizedArgsAre(b);
      ParenthesizedIs(x);
  }

  predicate NoParens<V>(e: Expr<V>) {
    match e
    case Leaf(_) => true
    case Un(_, x) => NoParens(x)
    case Bin(_, l, r) => NoParens(l) && NoParens(r)
    case Paren(_) => false
    case Call(_, args) => NoParensArgs(args)
  }

  predicate NoParensArgs<V>(a: Args<V>) {
    match a
    case First(x) => NoParens(x)
    case Then(b, x) => NoParensArgs(b) && NoParens(x)
  }

  /** Where no parentheses are needed none are added. */
  lemma {:induction false} NoneAdded<V>(e: Expr<V>)
    requires Leveled(e) && NoParens(e)
    ensures Parenthesized(e) == e
    decreases e, 1
  {
    match e
    case Leaf(_) =>
    case Un(op, x) => NoneAdded(x);
    case Bin(op, l, r) =>
      NoneAdded(l);
      NoneAdded(r);
      OpFacts(op);
    case Call(f, args) => NoneAddedArgs(args);
  }

  lemma {:induction false} NoneAddedArgs<V>(a: Args<V>)
    requires LeveledArgs(a) && NoParensArgs(a)
    ensures ParenthesizedArgs(a) == a
    decreases a, 0
  {
    match a
    case First(x) => NoneAdded(x);
    case Then(b, x) =>
      NoneAddedArgs(b);
      NoneAdded(x);
  }

  /** Every expression tree is read back from its text with the needed parentheses. */
  lemma ParseOfParenthesized<V>(e: Expr<V>)
    requires Typed(e) && Clean(e)
    ensures Parsed(Print(Parenthesized(e))).err == NoError && Parsed(Print(Parenthesized(e))).out == Postfix(e)
  {
    ParenthesizedIs(e);
    ParseOfPrint(Parenthesized(e));
  }

  /** How many signs are read as binary operators, when the reading starts after a value or not. */
  function Misread<V>(e: Expr<V>, lastIsVal: bool): nat {
    match e
    case Leaf(_) => 0
    case Un(op, x) => (if lastIsVal && (op == KEO_POS || op == KEO_NEG) then 1 else 0) + Misread(x, false)
    case Bin(_, l, r) => Misread(l, lastIsVal) + Misread(r, false)
    case Paren(x) => Misread(x, lastIsVal)
    case Call(_, args) => MisreadArgs(args)
  }

  function MisreadArgs<V>(a: Args<V>): nat {
    match a
    case First(x) => Misread(x, false)
    case Then(b, x) => MisreadArgs(b) + Misread(x, true)
  }

  lemma {:induction false} MisreadIs<V>(e: Expr<V>)
    ensures Leveled(e) ==> (Misread(e, false) == 0 <==> Clean(e))
    ensures Leveled(e) ==> (Misread(e, true) == 0 <==> Clean(e) && !StartsSigned(e))
    decreases e, 1
  {
    match e
    case Leaf(_) =>
    case Un(op, x) => MisreadIs(x);
    case Bin(op, l, r) =>
      MisreadIs(l);
      MisreadIs(r);
    case Paren(x) => MisreadIs(x);
    case Call(f, args) => MisreadArgsAre(args);
  }

  lemma {:induction false} MisreadArgsAre<V>(a: Args<V>)
    ensures LeveledArgs(a) ==> (MisreadArgs(a) == 0 <==> CleanArgs(a))
    decreases a, 0
  {
    match a
    case First(x) => MisreadIs(x);
    case Then(b, x) =>
      MisreadArgsAre(b);
      MisreadIs(x);
  }

  /** What the values and operators of a state add up to; a left parenthesis counts nothing. */
  ghost function Weight<V>(st: State<V>): int {
    Balance(st.out) + OpsWeight(st.ops)
  }

  ghost function OpsWeight<V>(ops: seq<Element<V>>): int {
    if ops == [] then 0 else OpsWeight(Pop(ops)) + (if Top(ops).Open? then 0 else Effect(Top(ops)))
  }

  /** The stack below the operators of the innermost open parenthesis. */
  ghost function Frame<V>(ops: seq<Element<V>>): seq<Element<V>> {
    if ops != [] && Top(ops).Operator? then Frame(Pop(ops)) else ops
  }

  /** The parser is between tokens, and only operators lie above the innermost open parenthesis. */
  ghost predicate Underway<V>(st: State<V>) {
    st.err == NoError && (Frame(st.ops) == [] || Top(Frame(st.ops)).Open?)
  }

  lemma BalancePush<V>(out: seq<Element<V>>, x: Element<V>)
    ensures Balance(out + [x]) == Balance(out) + Effect(x)
  {
    assert (out + [x])[..|out + [x]| - 1] == out;
  }

  lemma OpsPush<V>(ops: seq<Element<V>>, x: Element<V>)
    ensures OpsWeight(ops + [x]) == OpsWeight(ops) + (if x.Open? then 0 else Effect(x))
    ensures Frame(ops + [x]) == if x.Operator? then Frame(ops) else ops + [x]
  {
    assert Pop(ops + [x]) == ops;
  }

  /** One operator moves from the stack to the output. */
  function Moved<V>(st: State<V>): State<V>
    requires st.ops != []
  {
    st.(out := st.out + [Top(st.ops)], ops := Pop(st.ops))
  }

  lemma MovedWeighs<V>(st: State<V>)
    requires st.ops != [] && Top(st.ops).Operator?
    ensures Weight(Moved(st)) == Weight(st) && Frame(Moved(st).ops) == Frame(st.ops)
  {
    MovedParts(st.out, st.ops);
  }

  lemma MovedParts<V>(out: seq<Element<V>>, ops: seq<Element<V>>)
    requires ops != [] && Top(ops).Operator?
    ensures Balance(out + [Top(ops)]) + OpsWeight(Pop(ops)) == Balance(out) + OpsWeight(ops)
        && Frame(Pop(ops)) == Frame(ops)
  {
    BalancePush(out, Top(ops));
    OpsPop(ops);
  }

  lemma OpsPop<V>(ops: seq<Element<V>>)
    requires ops != [] && Top(ops).Operator?
    ensures OpsWeight(ops) == OpsWeight(Pop(ops)) + Effect(Top(ops))
    ensures Frame(ops) == Frame(Pop(ops))
  {
  }

  ghost predicate SameWeight<V>(p: State<V>, st: State<V>) {
    Weight(p) == Weight(st) && Frame(p.ops) == Frame(st.ops) && p.lastIsVal == st.lastIsVal && p.err == st.err
  }

  lemma PopForUnfolds<V>(st: State<V>, op: Op)
    ensures PopFor(st, op) == st || (st.ops != [] && Top(st.ops).Operator? && PopFor(st, op) == PopFor(Moved(st), op))
  {
  }

  lemma {:induction false} PopForWeighs<V>(st: State<V>, op: Op)
    ensures SameWeight(PopFor(st, op), st)
    decreases |st.ops|
  {
    PopForUnfolds(st, op);
    if PopFor(st, op) != st {
      MovedWeighs(st);
      PopForWeighs(Moved(st), op);
    }
  }

  lemma {:induction false} PopToOpenWeighs<V>(st: State<V>)
    requires Underway(st)
    ensures SameWeight(PopToOpen(st), st) && PopToOpen(st).ops == Frame(st.ops)
    decreases |st.ops|
  {
    if st.ops != [] && Top(st.ops).Operator? {
      MovedWeighs(st);
      PopToOpenWeighs(Moved(st));
    }
  }

  /** From st to s one value has been read, with so many signs misread. */
  ghost predicate ReadsAs<V>(st: State<V>, s: State<V>, misread: int) {
    Underway(s) && s.lastIsVal && Frame(s.ops) == Frame(st.ops) && Weight(s) == Weight(st) + 1 - misread
  }

  lemma SignWeighs<V>(st: State<V>, op: Op)
    requires Underway(st) && (!Unary(op) ==> st.lastIsVal)
    ensures var s := Feed(st, [Sign(SymbolOf(op))]);
            && Underway(s) && !s.lastIsVal && Frame(s.ops) == Frame(st.ops)
            && Weight(s) == Weight(st) - (if !Unary(op) || (st.lastIsVal && (op == KEO_POS || op == KEO_NEG)) then 1
                else 0)
  {
    FeedOne(st, Sign(SymbolOf(op)));
    var o := ReadOp(SymbolOf(op), st.lastIsVal);
    var p := PopFor(st, o);
    PopForWeighs(st, o);
    OpsPush(p.ops, Operator(o));
  }

  lemma CloseWeighs<V>(st: State<V>, base: seq<Element<V>>)
    requires Underway(st) && Frame(st.ops) == base + [Open]
    ensures var s := Feed(st, [RParen]);
            && s.err == NoError && s.lastIsVal == st.lastIsVal && Weight(s) == Weight(st)
            && s.ops == if base != [] && Top(base).Func? then Pop(base) else base
  {
    FeedOne(st, RParen);
    PopToOpenWeighs(st);
    assert Pop(base + [Open]) == base;
    OpsPush<V>(base, Open);
    if base != [] && Top(base).Func? {
      BalancePush(PopToOpen(st).out, Top(base));
    }
  }

  lemma CallWeight<V>(base: seq<Element<V>>, f: string, n: int)
    ensures OpsWeight(base + [Func(f, n)] + [Open]) == OpsWeight(base) + 1 - n
    ensures Frame(base + [Func(f, n)] + [Open]) == base + [Func(f, n)] + [Open]
  {
    OpsPush<V>(base, Func(f, n));
    OpsPush<V>(base + [Func(f, n)], Open);
  }

  lemma CommaWeighs<V>(st: State<V>, base: seq<Element<V>>, f: string, n: int)
    requires Underway(st) && Frame(st.ops) == base + [Func(f, n)] + [Open]
    ensures var s := Feed(st, [Comma]);
            && Underway(s) && s.lastIsVal == st.lastIsVal && Weight(s) == Weight(st) - 1
            && Frame(s.ops) == base + [Func(f, n + 1)] + [Open]
  {
    FeedOne(st, Comma);
    PopToOpenWeighs(st);
    var ops := base + [Func(f, n)] + [Open];
    CommaOps(base, f, n);
    CallWeight<V>(base, f, n);
    CallWeight<V>(base, f, n + 1);
  }

  lemma CommaOps<V>(base: seq<Element<V>>, f: string, n: int)
    ensures var ops := base + [Func(f, n)] + [Open];
            && ops[|ops| - 2] == Func(f, n)
            && ops[|ops| - 2 := Func(f, n + 1)] == base + [Func(f, n + 1)] + [Open]
  {
  }

  lemma LeafReads<V>(st: State<V>, v: V)
    requires Underway(st)
    ensures ReadsAs(st, Feed(st, Print<V>(Leaf(v))), 0)
  {
    FeedOne(st, Value(v));
    BalancePush(st.out, Val(v));
  }

  lemma UnReads<V>(st: State<V>, op: Op, x: Expr<V>)
    requires Underway(st) && Leveled(Un(op, x))
    ensures var st1 := Feed(st, [Sign(SymbolOf(op))]);
            && Underway(st1) && !st1.lastIsVal && Feed(st, Print(Un(op, x))) == Feed(st1, Print(x))
            && (ReadsAs(st1, Feed(st1, Print(x)), Misread(x, false))
                ==> ReadsAs(st, Feed(st1, Print(x)), Misread(Un(op, x), st.lastIsVal)))
  {
    FeedAppend(st, [Sign(SymbolOf(op))], Print(x));
    SignWeighs(st, op);
    hide Feed, Weight, Frame, Underway, SymbolOf;
  }

  lemma BinReads<V>(st: State<V>, op: Op, l: Expr<V>, r: Expr<V>)
    requires Underway(st) && Leveled(Bin(op, l, r)) && ReadsAs(st, Feed(st, Print(l)), Misread(l, st.lastIsVal))
    ensures var st1 := Feed(Feed(st, Print(l)), [Sign(SymbolOf(op))]);
            && Underway(st1) && !st1.lastIsVal && Feed(st, Print(Bin(op, l, r))) == Feed(st1, Print(r))
            && (ReadsAs(st1, Feed(st1, Print(r)), Misread(r, false))
                ==> ReadsAs(st, Feed(st1, Print(r)), Misread(Bin(op, l, r), st.lastIsVal)))
  {
    FeedAppend(st, Print(l) + [Sign(SymbolOf(op))], Print(r));
    FeedAppend(st, Print(l), [Sign(SymbolOf(op))]);
    SignWeighs(Feed(st, Print(l)), op);
    hide Feed, Weight, Frame, Underway, SymbolOf;
  }

  lemma ParenOpens<V>(st: State<V>, x: Expr<V>)
    requires Underway(st)
    ensures var st1 := Feed(st, [LParen]);
            && Underway(st1) && st1.lastIsVal == st.lastIsVal && Weight(st1) == Weight(st)
            && Frame(st1.ops) == st.ops + [Open]
            && Feed(st, Print(Paren(x))) == Feed(Feed(st1, Print(x)), [RParen])
  {
    FeedAppend(st, [LParen] + Print(x), [RParen]);
    FeedAppend(st, [LParen], Print(x));
    FeedOne(st, LParen);
    OpsPush<V>(st.ops, Open);
  }

  lemma ParenReads<V>(st: State<V>, x: Expr<V>)
    requires Underway(st)
    requires var st1 := Feed(st, [LParen]); ReadsAs(st1, Feed(st1, Print(x)), Misread(x, st1.lastIsVal))
    ensures ReadsAs(st, Feed(st, Print(Paren(x))), Misread(Paren(x), st.lastIsVal))
  {
    ParenOpens(st, x);
    FrameTop(st);
    CloseWeighs(Feed(Feed(st, [LParen]), Print(x)), st.ops);
    hide Feed, Weight;
  }

  lemma CallFeeds<V>(st: State<V>, f: string, args: Args<V>)
    ensures Feed(st, Print(Call(f, args))) == Feed(Feed(st, [Name(f), LParen] + PrintArgs(args)), [RParen])
    ensures Misread(Call(f, args), st.lastIsVal) == MisreadArgs(args)
  {
    FeedAppend(st, [Name(f), LParen] + PrintArgs(args), [RParen]);
    hide Feed;
  }

  lemma CallReads<V>(st: State<V>, f: string, args: Args<V>)
    requires Underway(st)
    requires ArgsReadAs(st, Feed(st, [Name(f), LParen] + PrintArgs(args)), f, args)
    ensures ReadsAs(st, Feed(st, Print(Call(f, args))), Misread(Call(f, args), st.lastIsVal))
  {
    hide *;
    CallFeeds(st, f, args);
    CallEnds(st, Feed(st, [Name(f), LParen] + PrintArgs(args)), f, args);
  }

  lemma CallEnds<V>(st: State<V>, s: State<V>, f: string, args: Args<V>)
    requires Underway(st) && ArgsReadAs(st, s, f, args)
    ensures ReadsAs(st, Feed(s, [RParen]), MisreadArgs(args))
  {
    var base := st.ops + [Func(f, Count(args))];
    assert base != [] && Top(base) == Func(f, Count(args)) && Pop(base) == st.ops;
    CloseWeighs(s, base);
    hide Feed, Weight;
  }

  /** From st to s the arguments of f have been read. */
  ghost predicate ArgsReadAs<V>(st: State<V>, s: State<V>, f: string, a: Args<V>) {
    && Underway(s) && s.lastIsVal && Frame(s.ops) == st.ops + [Func(f, Count(a))] + [Open]
    && Weight(s) == Weight(st) + 1 - MisreadArgs(a)
  }

  lemma LeveledParts<V>(e: Expr<V>)
    requires Leveled(e)
    ensures e.Un? || e.Paren? ==> Leveled(e.x)
    ensures e.Bin? ==> Leveled(e.l) && Leveled(e.r)
    ensures e.Call? ==> LeveledArgs(e.args)
    ensures e.Leaf? ==> Misread(e, false) == 0 && Misread(e, true) == 0
  {
  }

  /** Any expression is read as one value, whatever signs are misread on the way. */
  lemma {:induction false} ReadWeighs<V>(st: State<V>, e: Expr<V>)
    requires Underway(st) && Leveled(e)
    ensures ReadsAs(st, Feed(st, Print(e)), Misread(e, st.lastIsVal))
    decreases e, 1
  {
    hide *;
    LeveledParts(e);
    match e
    case Leaf(v) => LeafReads(st, v);
    case Un(op, x) =>
      UnReads(st, op, x);
      ReadWeighs(Feed(st, [Sign(SymbolOf(op))]), x);
    case Bin(op, l, r) =>
      ReadWeighs(st, l);
      BinReads(st, op, l, r);
      ReadWeighs(Feed(Feed(st, Print(l)), [Sign(SymbolOf(op))]), r);
    case Paren(x) =>
      ParenOpens(st, x);
      ReadWeighs(Feed(st, [LParen]), x);
      ParenReads(st, x);
    case Call(f, args) =>
      ArgsWeigh(st, f, args);
      CallReads(st, f, args);
  }

  /** Between tokens the top of the stack is no function. */
  lemma FrameTop<V>(st: State<V>)
    requires Underway(st)
    ensures st.ops == [] || !Top(st.ops).Func?
  {
  }

  lemma FirstOpens<V>(st: State<V>, f: string, x: Expr<V>)
    requires Underway(st)
    ensures var st1, tokens := Feed(st, [Name(f), LParen]), [Name(f), LParen] + PrintArgs(First(x));
            && Underway(st1) && !st1.lastIsVal && Feed(st, tokens) == Feed(st1, Print(x))
            && (ReadsAs(st1, Feed(st1, Print(x)), Misread(x, false)) ==> ArgsReadAs(st, Feed(st, tokens), f, First(x)))
  {
    FeedAppend(st, [Name(f), LParen], Print(x));
    CallOpens(st, f);
    assert st.ops + [Func(f, 1), Open] == st.ops + [Func(f, 1)] + [Open];
    CallWeight<V>(st.ops, f, 1);
    hide Feed, OpsWeight, Frame, Balance;
  }

  lemma ThenFeeds<V>(st: State<V>, f: string, b: Args<V>, x: Expr<V>)
    ensures var start := [Name(f), LParen];
            Feed(st, start + PrintArgs(Then(b, x))) == Feed(Feed(Feed(st, start + PrintArgs(b)), [Comma]), Print(x))
  {
    var start := [Name(f), LParen];
    assert start + (PrintArgs(b) + [Comma] + Print(x)) == start + PrintArgs(b) + [Comma] + Print(x);
    FeedAppend(st, start + PrintArgs(b) + [Comma], Print(x));
    FeedAppend(st, start + PrintArgs(b), [Comma]);
    hide Feed;
  }

  lemma ThenReads<V>(st: State<V>, s: State<V>, f: string, b: Args<V>, x: Expr<V>)
    requires Underway(st) && ArgsReadAs(st, s, f, b)
    ensures var st1 := Feed(s, [Comma]);
            && Underway(st1) && st1.lastIsVal
            && (ReadsAs(st1, Feed(st1, Print(x)), Misread(x, true))
                ==> ArgsReadAs(st, Feed(st1, Print(x)), f, Then(b, x)))
  {
    CommaWeighs(s, st.ops, f, Count(b));
    hide Feed, Weight, Frame;
  }

  lemma {:induction false} ArgsWeigh<V>(st: State<V>, f: string, a: Args<V>)
    requires Underway(st) && LeveledArgs(a)
    ensures ArgsReadAs(st, Feed(st, [Name(f), LParen] + PrintArgs(a)), f, a)
    decreases a, 0
  {
    hide *;
    LeveledArgParts(a);
    match a
    case First(x) =>
      FirstOpens(st, f, x);
      ReadWeighs(Feed(st, [Name(f), LParen]), x);
    case Then(b, x) =>
      ArgsWeigh(st, f, b);
      ThenFeeds(st, f, b, x);
      ThenReads(st, Feed(st, [Name(f), LParen] + PrintArgs(b)), f, b, x);
      ReadWeighs(Feed(Feed(st, [Name(f), LParen] + PrintArgs(b)), [Comma]), x);
  }

  lemma LeveledArgParts<V>(a: Args<V>)
    requires LeveledArgs(a)
    ensures Leveled(a.x) && (a.Then? ==> LeveledArgs(a.before))
  {
  }

  /** Exactly the expressions without a signed later argument are parsed; the others are refused for their number of
      arguments. */
  lemma ParsesExactly<V>(e: Expr<V>)
    requires Leveled(e)
    ensures Parsed(Print(e)).err == if Clean(e) then NoError else WrongArgs
    ensures Clean(e) ==> Parsed(Print(e)).out == Postfix(e)
  {
    MisreadIs(e);
    if Clean(e) {
      ParseOfPrint(e);
    } else {
      var st := State([], [], false, NoError);
      ReadWeighs(st, e);
      PopToOpenWeighs(Feed(st, Print(e)));
    }
  }

  function Nesting<V>(t: Token<V>): int {
    if t.LParen? then 1 else if t.RParen? then -1 else 0
  }

  /** Left parentheses less right ones. */
  function Depth<V>(tokens: seq<Token<V>>): int {
    if tokens == [] then 0 else Nesting(tokens[0]) + Depth(tokens[1..])
  }

  /** From so many open parentheses on, no right parenthesis comes before its left one. */
  predicate NeverBelow<V>(tokens: seq<Token<V>>, depth: int)
    decreases |tokens|
  {
    depth >= 0 && (tokens == [] || NeverBelow(tokens[1..], depth + Nesting(tokens[0])))
  }

  /** The left parentheses on the operator stack. */
  ghost function Opens<V>(ops: seq<Element<V>>): (n: nat)
    ensures n > 0 ==> ops != []
  {
    if ops == [] then 0 else Opens(Pop(ops)) + (if Top(ops).Open? then 1 else 0)
  }

  lemma {:induction false} PopForOpens<V>(st: State<V>, op: Op)
    ensures Opens(PopFor(st, op).ops) == Opens(st.ops) && PopFor(st, op).err == st.err
    decreases |st.ops|
  {
    PopForUnfolds(st, op);
    if PopFor(st, op) != st {
      PopForOpens(Moved(st), op);
    }
  }

  lemma {:induction false} PopToOpenOpens<V>(st: State<V>)
    ensures var s := PopToOpen(st);
            Opens(s.ops) == Opens(st.ops) && s.err == st.err && (s.ops == [] || Top(s.ops).Open?)
    decreases |st.ops|
  {
    if st.ops != [] && !Top(st.ops).Open? {
      PopToOpenOpens(Moved(st));
    }
  }

  lemma OpensPush<V>(ops: seq<Element<V>>, x: Element<V>)
    ensures Opens(ops + [x]) == Opens(ops) + (if x.Open? then 1 else 0)
  {
    assert Pop(ops + [x]) == ops;
  }

  /** Counting an argument changes no parenthesis. */
  lemma CountedOpens<V>(ops: seq<Element<V>>, f: string, n: int)
    requires |ops| >= 2 && ops[|ops| - 2] == Func(f, n)
    ensures Opens(ops[|ops| - 2 := Func(f, n + 1)]) == Opens(ops)
  {
    hide Opens;
    var base, top := ops[..|ops| - 2], ops[|ops| - 1];
    assert ops == base + [Func(f, n)] + [top];
    assert ops[|ops| - 2 := Func(f, n + 1)] == base + [Func(f, n + 1)] + [top];
    OpensPush(base, Func(f, n));
    OpensPush(base, Func(f, n + 1));
    OpensPush(base + [Func(f, n)], top);
    OpensPush(base + [Func(f, n + 1)], top);
  }

  lemma StepOpens<V>(st: State<V>, t: Token<V>)
    requires st.err == NoError
    ensures var s := Step(st, t);
            && (s.err == NoError ==> Opens(s.ops) == Opens(st.ops) + Nesting(t))
            && (s.err == ExtraRightParen ==> Opens(st.ops) + Nesting(t) < 0)
            && s.err != ExtraLeftParen && s.err != WrongArgs
  {
    match t
    case LParen => OpensPush<V>(st.ops, Open);
    case RParen =>
      PopToOpenOpens(st);
      hide PopToOpen;
    case Comma =>
      PopToOpenOpens(st);
      var ops := PopToOpen(st).ops;
      hide PopToOpen, Opens;
      if |ops| >= 2 && ops[|ops| - 2].Func? {
        CountedOpens(ops, ops[|ops| - 2].f, ops[|ops| - 2].nArgs);
      }
    case Value(v) =>
    case Name(f) => OpensPush<V>(st.ops, Func(f, 1));
    case Sign(s) =>
      var op := ReadOp(s, st.lastIsVal);
      PopForOpens(st, op);
      OpensPush(PopFor(st, op).ops, Operator(op));
  }

  lemma {:induction false} FeedOpens<V>(st: State<V>, tokens: seq<Token<V>>)
    requires st.err == NoError
    ensures var s, n := Feed(st, tokens), Opens(st.ops);
            && (s.err == NoError ==> Opens(s.ops) == n + Depth(tokens) && NeverBelow(tokens, n))
            && (s.err == ExtraRightParen ==> !NeverBelow(tokens, n))
            && s.err != ExtraLeftParen && s.err != WrongArgs
    decreases |tokens|
  {
    hide Step;
    if tokens != [] {
      var st1 := Step(st, tokens[0]);
      StepOpens(st, tokens[0]);
      if st1.err == NoError {
        FeedOpens(st1, tokens[1..]);
      } else {
        assert Feed(st1, tokens[1..]) == st1;
      }
    }
  }

  /** Whatever the tokens are: a right parenthesis is reported as extra only if one comes before its left one, a left
      one only if it is never closed, and what passes both tests has balanced parentheses. */
  lemma Parentheses<V>(tokens: seq<Token<V>>)
    ensures var err := Parsed(tokens).err;
            && (err == ExtraRightParen ==> !NeverBelow(tokens, 0))
            && (err == ExtraLeftParen ==> NeverBelow(tokens, 0) && Depth(tokens) > 0)
            && (err == NoError || err == WrongArgs ==> NeverBelow(tokens, 0) && Depth(tokens) == 0)
  {
    hide Feed;
    var st: State<V> := State([], [], false, NoError);
    FeedOpens(st, tokens);
    PopToOpenOpens(Feed(st, tokens));
  }

  /** ke_parse_core on tokens. */
  method Parse<V>(tokens: seq<Token<V>>) returns (out: seq<Element<V>>, err: Error)
    ensures err == Parsed(tokens).err && (err == NoError ==> out == Parsed(tokens).out)
  {
    var ops: seq<Element<V>> := [];
    var lastIsVal := false;
    out, err := [], NoError;
    var i := 0;
    while i < |tokens| && err == NoError
      invariant 0 <= i <= |tokens|
      invariant Feed(State([], [], false, NoError), tokens) == Feed(State(out, ops, lastIsVal, err), tokens[i..])
    {
      ghost var st, rest := State(out, ops, lastIsVal, err), tokens[i..];
      assert rest[0] == tokens[i] && rest[1..] == tokens[i + 1..];
      match tokens[i] {
        case LParen => ops := ops + [Open];
        case RParen =>
          out, ops := MoveToOpen(out, ops, st);
          if ops == [] {
            err := ExtraRightParen;
          } else {
            ops := ops[..|ops| - 1];
            if ops != [] && ops[|ops| - 1].Func? {
              out := out + [ops[|ops| - 1]];
              ops := ops[..|ops| - 1];
            }
          }
        case Comma =>
          out, ops := MoveToOpen(out, ops, st);
          if |ops| < 2 || !ops[|ops| - 2].Func? {
            err := NotInCall;
          } else {
            var f := ops[|ops| - 2];
            ops := ops[|ops| - 2 := f.(nArgs := f.nArgs + 1)];
          }
        case Value(v) =>
          out := out + [Val(v)];
          lastIsVal := true;
        case Name(f) =>
          ops := ops + [Func(f, 1)];
          lastIsVal := false;
        case Sign(s) =>
          var op := ReadOp(s, lastIsVal);
          out, ops := MoveFor(op, out, ops, st);
          ops := ops + [Operator(op)];
          lastIsVal := false;
      }
      assert State(out, ops, lastIsVal, err) == Step(st, tokens[i]);
      i := i + 1;
    }
    assert err == NoError ==> tokens[i..] == [];
    if err == NoError {
      ghost var st := State(out, ops, lastIsVal, err);
      out, ops := MoveToOpen(out, ops, st);
      if ops != [] {
        err := ExtraLeftParen;
      } else {
        var n := 0;
        var j := 0;
        while j < |out|
          invariant 0 <= j <= |out| && n == Balance(out[..j])
        {
          assert out[..j + 1][..j] == out[..j];
          n := n + Effect(out[j]);
          j := j + 1;
        }
        assert out[..j] == out;
        if n != 1 {
          err := WrongArgs;
        }
      }
    }
  }

  /** The loop that moves operators to the output until a left parenthesis. */
  method MoveToOpen<V>(out0: seq<Element<V>>, ops0: seq<Element<V>>, ghost st: State<V>)
      returns (out: seq<Element<V>>, ops: seq<Element<V>>)
    requires st.out == out0 && st.ops == ops0
    ensures PopToOpen(st) == st.(out := out, ops := ops)
  {
    out, ops := out0, ops0;
    while ops != [] && !ops[|ops| - 1].Open?
      invariant PopToOpen(st) == PopToOpen(st.(out := out, ops := ops))
      decreases |ops|
    {
      out := out + [ops[|ops| - 1]];
      ops := ops[..|ops| - 1];
    }
  }

  /** The loop that moves operators to the output until one stops the arriving operator. */
  method MoveFor<V>(op: Op, out0: seq<Element<V>>, ops0: seq<Element<V>>, ghost st: State<V>)
      returns (out: seq<Element<V>>, ops: seq<Element<V>>)
    requires st.out == out0 && st.ops == ops0
    ensures PopFor(st, op) == st.(out := out, ops := ops)
  {
    out, ops := out0, ops0;
    while ops != [] && ops[|ops| - 1].Operator? && !Stops(op, ops[|ops| - 1].op)
      invariant PopFor(st, op) == PopFor(st.(out := out, ops := ops), op)
      decreases |ops|
    {
      out := out + [ops[|ops| - 1]];
      ops := ops[..|ops| - 1];
    }
  }

  /** What the operators and the built-in functions do with values; a function without an implementation is None. */
  datatype Semantics<!V> = Semantics(un: (Op, V) -> V, bin: (Op, V, V) -> V, fun1: string -> Fun1<V>,
      fun2: string -> Fun2<V>)

  datatype Fun1<!V> = NoFun1 | Fun1(f: V -> V)

  datatype Fun2<!V> = NoFun2 | Fun2(f: (V, V) -> V)

  /** The value of an expression by recursion; an unknown function gives its first argument. */
  function ValueOf<V>(m: Semantics<V>, e: Expr<V>): V {
    match e
    case Leaf(v) => v
    case Un(op, x) => m.un(op, ValueOf(m, x))
    case Bin(op, l, r) => m.bin(op, ValueOf(m, l), ValueOf(m, r))
    case Paren(x) => ValueOf(m, x)
    case Call(f, args) => Apply(m, f, ValuesOf(m, args))
  }

  function ValuesOf<V>(m: Semantics<V>, a: Args<V>): (vs: seq<V>)
    ensures |vs| == Count(a) >= 1
  {
    match a
    case First(x) => [ValueOf(m, x)]
    case Then(b, x) => ValuesOf(m, b) + [ValueOf(m, x)]
  }

  function Apply<V>(m: Semantics<V>, f: string, args: seq<V>): V
    requires args != []
  {
    if |args| == 1 && m.fun1(f).Fun1? then m.fun1(f).f(args[0])
    else if |args| == 2 && m.fun2(f).Fun2? then m.fun2(f).f(args[0], args[1])
    else args[0]
  }

  /** What the operators are given: one value, or the left one and then the right one. */
  lemma OperatorValues<V>(m: Semantics<V>, op: Op, x: Expr<V>, y: Expr<V>)
    ensures ValueOf(m, Un(op, x)) == m.un(op, ValueOf(m, x))
    ensures ValueOf(m, Bin(op, x, y)) == m.bin(op, ValueOf(m, x), ValueOf(m, y))
  {
  }

  /** The first argument of a call. */
  function FirstArg<V>(a: Args<V>): Expr<V> {
    match a
    case First(x) => x
    case Then(b, _) => FirstArg(b)
  }

  lemma {:induction false} FirstValue<V>(m: Semantics<V>, a: Args<V>)
    ensures ValuesOf(m, a)[0] == ValueOf(m, FirstArg(a))
  {
    if a.Then? {
      FirstValue(m, a.before);
    }
  }

  /** What the functions are given: a function with an implementation for one argument or for two gets them in the order
      in which they are written; every other call has the value of its first argument. */
  lemma CallValues<V>(m: Semantics<V>, f: string, x: Expr<V>, y: Expr<V>, a: Args<V>)
    ensures m.fun1(f).Fun1? ==> ValueOf(m, Call(f, First(x))) == m.fun1(f).f(ValueOf(m, x))
    ensures m.fun2(f).Fun2? ==> ValueOf(m, Call(f, Then(First(x), y))) == m.fun2(f).f(ValueOf(m, x), ValueOf(m, y))
    ensures !(Count(a) == 1 && m.fun1(f).Fun1?) && !(Count(a) == 2 && m.fun2(f).Fun2?)
            ==> ValueOf(m, Call(f, a)) == ValueOf(m, FirstArg(a))
  {
    FirstValue(m, a);
    var one, two: Args<V> := First(x), Then(First(x), y);
    assert ValuesOf(m, one) == [ValueOf(m, x)];
    assert ValuesOf(m, two) == ValuesOf(m, one) + [ValueOf(m, y)];
  }

  datatype Stack<V> = Underflow | Values(vs: seq<V>)

  /** One element on the evaluation stack. */
  function Execute<V>(m: Semantics<V>, vs: seq<V>, e: Element<V>): Stack<V> {
    match e
    case Val(v) => Values(vs + [v])
    case Operator(op) =>
      if Unary(op) then
        if |vs| < 1 then Underflow else Values(Pop(vs) + [m.un(op, Top(vs))])
      else
        if |vs| < 2 then Underflow else Values(vs[..|vs| - 2] + [m.bin(op, vs[|vs| - 2], Top(vs))])
    case Func(f, n) =>
      if n < 1 || |vs| < n then Underflow
      else Values(vs[..|vs| - n] + [Apply(m, f, vs[|vs| - n..])])
    case Open => Values(vs)
  }

  function Machine<V>(m: Semantics<V>, vs: seq<V>, code: seq<Element<V>>): Stack<V>
    decreases |code|
  {
    if code == [] then Values(vs)
    else
      match Execute(m, vs, code[0])
      case Underflow => Underflow
      case Values(ws) => Machine(m, ws, code[1..])
  }

  /** How many values an element takes from the stack. */
  function Needs<V>(e: Element<V>): int {
    match e
    case Val(_) => 0
    case Operator(op) => if Unary(op) then 1 else 2
    case Func(_, n) => n
    case Open => 0
  }

  /** What the parser writes: no parentheses, and functions of one argument or more. */
  ghost predicate Executable<V>(code: seq<Element<V>>) {
    forall x :: x in code ==> !x.Open? && (x.Func? ==> x.nArgs >= 1)
  }

  /** From so many values on, each element finds the values it takes. */
  predicate Supplied<V>(code: seq<Element<V>>, depth: int)
    decreases |code|
  {
    code == [] || (Needs(code[0]) <= depth && Supplied(code[1..], depth + Effect(code[0])))
  }

  lemma BalanceFirst<V>(code: seq<Element<V>>)
    requires code != []
    ensures Balance(code) == Effect(code[0]) + Balance(code[1..])
  {
    BalanceAppend(code[..1], code[1..]);
    assert code[..1] + code[1..] == code && code[..1] == [code[0]];
    BalanceOne(code[0]);
  }

  /** With the first element gone every prefix is one shorter. */
  lemma PrefixAfterFirst<V>(code: seq<Element<V>>, i: nat)
    requires 0 < i < |code|
    ensures Balance(code[..i]) == Effect(code[0]) + Balance(code[1..][..i - 1]) && code[i] == code[1..][i - 1]
  {
    hide Effect, Balance;
    BalanceFirst(code[..i]);
    assert code[..i][1..] == code[1..][..i - 1];
  }

  ghost predicate SuppliedAt<V>(code: seq<Element<V>>, depth: int, i: int)
    requires 0 <= i < |code|
  {
    Needs(code[i]) <= depth + Balance(code[..i])
  }

  lemma SuppliedFirst<V>(code: seq<Element<V>>, depth: int)
    requires code != []
    ensures SuppliedAt(code, depth, 0) <==> Needs(code[0]) <= depth
  {
    assert code[..0] == [];
  }

  /** Every prefix of the code leaves the values that the next element takes. */
  lemma {:induction false} SuppliedPrefixes<V>(code: seq<Element<V>>, depth: int)
    ensures Supplied(code, depth) <==> forall i :: 0 <= i < |code| ==> SuppliedAt(code, depth, i)
    decreases |code|
  {
    if code != [] {
      var rest, d := code[1..], depth + Effect(code[0]);
      SuppliedPrefixes(rest, d);
      SuppliedFirst(code, depth);
      forall i | 0 <= i < |rest| ensures SuppliedAt(code, depth, i + 1) <==> SuppliedAt(rest, d, i) {
        PrefixAfterFirst(code, i + 1);
      }
      hide SuppliedAt, Needs, Effect;
      if forall i :: 0 <= i < |code| ==> SuppliedAt(code, depth, i) {
        forall i | 0 <= i < |rest| ensures SuppliedAt(rest, d, i) {
          assert SuppliedAt(code, depth, i + 1);
        }
      }
      if forall i :: 0 <= i < |rest| ==> SuppliedAt(rest, d, i) {
        forall i | 0 < i < |code| ensures SuppliedAt(code, depth, i) {
          assert SuppliedAt(rest, d, i - 1);
        }
      }
    }
  }

  lemma ExecuteSupplied<V>(m: Semantics<V>, vs: seq<V>, e: Element<V>)
    requires !e.Open? && (e.Func? ==> e.nArgs >= 1)
    ensures Execute(m, vs, e).Values? <==> Needs(e) <= |vs|
    ensures Execute(m, vs, e).Values? ==> |Execute(m, vs, e).vs| == |vs| + Effect(e)
  {
  }

  /** The machine runs through exactly if each element finds the values it takes. */
  lemma {:induction false} MachineSupplied<V>(m: Semantics<V>, vs: seq<V>, code: seq<Element<V>>)
    requires Executable(code)
    ensures Machine(m, vs, code).Values? <==> Supplied(code, |vs|)
    ensures Machine(m, vs, code).Values? ==> |Machine(m, vs, code).vs| == |vs| + Balance(code)
    decreases |code|
  {
    hide Execute, Needs, Effect;
    if code != [] {
      assert code[0] in code && forall x :: x in code[1..] ==> x in code;
      ExecuteSupplied(m, vs, code[0]);
      BalanceFirst(code);
      if Execute(m, vs, code[0]).Values? {
        MachineSupplied(m, Execute(m, vs, code[0]).vs, code[1..]);
      }
    }
  }

  /** The operator stack of the parser never holds a value. */
  ghost predicate Stacked<V>(ops: seq<Element<V>>) {
    forall x :: x in ops ==> !x.Val? && (x.Func? ==> x.nArgs >= 1)
  }

  ghost predicate Writing<V>(st: State<V>) {
    Executable(st.out) && Stacked(st.ops)
  }

  lemma MovedWriting<V>(st: State<V>)
    requires Writing(st) && st.ops != [] && !Top(st.ops).Open?
    ensures Writing(Moved(st))
  {
    assert Top(st.ops) in st.ops;
  }

  lemma {:induction false} PopForWriting<V>(st: State<V>, op: Op)
    requires Writing(st)
    ensures Writing(PopFor(st, op))
    decreases |st.ops|
  {
    hide Writing;
    PopForUnfolds(st, op);
    if PopFor(st, op) != st {
      MovedWriting(st);
      PopForWriting(Moved(st), op);
    }
  }

  lemma {:induction false} PopToOpenWriting<V>(st: State<V>)
    requires Writing(st)
    ensures Writing(PopToOpen(st)) && (PopToOpen(st).ops == [] || Top(PopToOpen(st).ops).Open?)
    decreases |st.ops|
  {
    hide Writing;
    if st.ops != [] && !Top(st.ops).Open? {
      MovedWriting(st);
      PopToOpenWriting(Moved(st));
    }
  }

  lemma StepWriting<V>(st: State<V>, t: Token<V>)
    requires Writing(st)
    ensures Writing(Step(st, t))
  {
    match t
    case RParen =>
      PopToOpenWriting(st);
      var s := PopToOpen(st);
      if s.ops != [] && Pop(s.ops) != [] {
        assert Top(Pop(s.ops)) in s.ops;
      }
    case Comma =>
      PopToOpenWriting(st);
      var s := PopToOpen(st);
      if |s.ops| >= 2 {
        assert s.ops[|s.ops| - 2] in s.ops;
      }
    case Sign(s) =>
      PopForWriting(st, ReadOp(s, st.lastIsVal));
    case _ =>
  }

  lemma {:induction false} FeedWriting<V>(st: State<V>, tokens: seq<Token<V>>)
    requires Writing(st)
    ensures Writing(Feed(st, tokens))
    decreases |tokens|
  {
    hide Writing, Step;
    if st.err == NoError && tokens != [] {
      StepWriting(st, tokens[0]);
      FeedWriting(Step(st, tokens[0]), tokens[1..]);
    }
  }

  /** Whatever tokens the parser accepts, its output can be executed, and its effects sum up to one value. */
  lemma ParsedExecutable<V>(tokens: seq<Token<V>>)
    requires Parsed(tokens).err == NoError
    ensures Executable(Parsed(tokens).out) && Balance(Parsed(tokens).out) == 1
  {
    hide Writing, PopToOpen, Feed, Balance;
    var start: State<V> := State([], [], false, NoError);
    assert Writing(start) by {
      StartWriting(start);
    }
    FeedWriting(start, tokens);
    PopToOpenWriting(Feed(start, tokens));
    WritingExecutable(PopToOpen(Feed(start, tokens)));
  }

  lemma StartWriting<V>(st: State<V>)
    requires st.out == [] && st.ops == []
    ensures Writing(st)
  {
  }

  lemma WritingExecutable<V>(st: State<V>)
    requires Writing(st)
    ensures Executable(st.out)
  {
  }

  /** Evaluating what the parser accepts gives one value, or underflows exactly if some prefix of the output leaves
      fewer values than the next element takes; the parser itself only checks the sum. */
  lemma AcceptedRuns<V>(m: Semantics<V>, tokens: seq<Token<V>>)
    requires Parsed(tokens).err == NoError
    ensures var out := Parsed(tokens).out;
            && (Machine(m, [], out).Underflow? <==> exists i :: 0 <= i < |out| && !SuppliedAt(out, 0, i))
            && (Machine(m, [], out).Values? ==> |Machine(m, [], out).vs| == 1)
  {
    hide Parsed, Machine, Executable, Supplied, SuppliedAt, Balance;
    var out := Parsed(tokens).out;
    ParsedExecutable(tokens);
    MachineSupplied(m, [], out);
    SuppliedPrefixes(out, 0);
  }

  /** The tokens of ( * ) v ( w ). */
  function MisplacedOperator<V>(v: V, w: V): seq<Token<V>> {
    [LParen, Sign(Other(KEO_MUL)), RParen, Value(v), LParen, Value(w), RParen]
  }

  /** The parser accepts ( * ) v ( w ), and its output underflows at once. */
  lemma MisplacedOperatorExample<V>(m: Semantics<V>, v: V, w: V)
    ensures var r := Parsed(MisplacedOperator(v, w));
            r.err == NoError && r.out == [Operator(KEO_MUL), Val(v), Val(w)] && Machine(m, [], r.out) == Underflow
  {
    OperatorInParens([Value(v), LParen, Value(w), RParen]);
    ValuesAround<V>([Operator(KEO_MUL)], v, w);
    assert MisplacedOperator(v, w) == [LParen, Sign(Other(KEO_MUL)), RParen] + [Value(v), LParen, Value(w), RParen];
    var out: seq<Element<V>> := [Operator(KEO_MUL)] + [Val(v)] + [Val(w)];
    hide Feed, Step;
    BalanceOfThree(out);
  }

  lemma OperatorInParens<V>(rest: seq<Token<V>>)
    ensures Feed(State([], [], false, NoError), [LParen, Sign(Other(KEO_MUL)), RParen] + rest)
            == Feed(State([Operator(KEO_MUL)], [], false, NoError), rest)
  {
    var a: seq<Element<V>> := [Operator(KEO_MUL)];
    assert [LParen, Sign(Other(KEO_MUL)), RParen] + rest == [LParen] + ([Sign(Other(KEO_MUL))] + ([RParen] + rest));
    FeedStep(State([], [], false, NoError), LParen, [Sign(Other(KEO_MUL))] + ([RParen] + rest),
        State([], [Open], false, NoError));
    FeedStep(State([], [Open], false, NoError), Sign(Other(KEO_MUL)), [RParen] + rest,
        State([], [Open] + a, false, NoError));
    ClosePair([], a);
    FeedStep(State([], [Open] + a, false, NoError), RParen, rest, State(a, [], false, NoError));
  }

  lemma FourTokens<T>(a: T, b: T, c: T, d: T)
    ensures [a, b, c, d] == [a] + ([b] + ([c] + ([d] + [])))
  {
  }

  lemma ValueStep<V>(out: seq<Element<V>>, ops: seq<Element<V>>, lastIsVal: bool, v: V)
    ensures Step(State(out, ops, lastIsVal, NoError), Value(v)) == State(out + [Val(v)], ops, true, NoError)
  {
  }

  lemma OpenStep<V>(out: seq<Element<V>>, lastIsVal: bool)
    ensures Step(State(out, [], lastIsVal, NoError), LParen) == State(out, [Open], lastIsVal, NoError)
  {
    assert [] + [Element<V>.Open] == [Open];
  }

  lemma CloseStep<V>(out: seq<Element<V>>, lastIsVal: bool)
    ensures Step(State(out, [Open], lastIsVal, NoError), RParen) == State(out, [], lastIsVal, NoError)
  {
    assert Pop([Element<V>.Open]) == [];
  }

  lemma ValuesAround<V>(a: seq<Element<V>>, v: V, w: V)
    ensures Feed(State(a, [], false, NoError), [Value(v), LParen, Value(w), RParen])
        == State(a + [Val(v)] + [Val(w)], [], true, NoError)
  {
    FourTokens(Value(v), Token<V>.LParen, Value(w), RParen);
    ValueStep(a, [], false, v);
    OpenStep(a + [Val(v)], true);
    ValueStep(a + [Val(v)], [Open], true, w);
    CloseStep(a + [Val(v)] + [Val(w)], true);
    FeedNone(State(a + [Val(v)] + [Val(w)], [], true, NoError));
    hide *;
    var b, c := a + [Val(v)], a + [Val(v)] + [Val(w)];
    var t4 := [RParen] + [];
    var t3 := [Value(w)] + t4;
    FeedStep(State(a, [], false, NoError), Value(v), [LParen] + t3, State(b, [], true, NoError));
    FeedStep(State(b, [], true, NoError), LParen, t3, State(b, [Open], true, NoError));
    FeedStep(State(b, [Open], true, NoError), Value(w), t4, State(c, [Open], true, NoError));
    FeedStep(State(c, [Open], true, NoError), RParen, [], State(c, [], true, NoError));
  }

  lemma FeedNone<V>(st: State<V>)
    ensures Feed(st, []) == st
  {
  }

  lemma ClosePair<V>(out: seq<Element<V>>, a: seq<Element<V>>)
    requires |a| == 1 && a[0].Operator?
    ensures Step(State(out, [Open] + a, false, NoError), RParen) == State(out + a, [], false, NoError)
  {
    var st: State<V> := State(out, [Open] + a, false, NoError);
    assert Pop([Open] + a) == [Open] && Top([Open] + a) == a[0] && [a[0]] == a;
    assert PopToOpen(st) == PopToOpen(State(out + a, [Open], false, NoError)) == State(out + a, [Open], false, NoError);
  }

  lemma BalanceOfThree<V>(c: seq<Element<V>>)
    requires |c| == 3
    ensures Balance(c) == Effect(c[0]) + Effect(c[1]) + Effect(c[2])
  {
    BalanceFirst(c);
    BalanceFirst(c[1..]);
    BalanceFirst(c[1..][1..]);
  }

  lemma FeedStep<V>(st: State<V>, t: Token<V>, rest: seq<Token<V>>, next: State<V>)
    requires st.err == NoError && Step(st, t) == next
    ensures Feed(st, [t] + rest) == Feed(next, rest)
  {
    assert ([t] + rest)[1..] == rest;
  }

  lemma MachineOne<V>(m: Semantics<V>, vs: seq<V>, e: Element<V>, code: seq<Element<V>>)
    requires Execute(m, vs, e).Values?
    ensures Machine(m, vs, [e] + code) == Machine(m, Execute(m, vs, e).vs, code)
  {
    assert ([e] + code)[1..] == code;
  }

  /** Executing the postfix order of an expression pushes its value, from any stack and with any code to follow. */
  lemma {:induction false} MachineRuns<V>(m: Semantics<V>, vs: seq<V>, e: Expr<V>, code: seq<Element<V>>)
    requires Leveled(e)
    ensures Machine(m, vs, Postfix(e) + code) == Machine(m, vs + [ValueOf(m, e)], code)
    decreases e, 1
  {
    match e
    case Leaf(v) => MachineOne(m, vs, Val(v), code);
    case Un(op, x) =>
      assert Postfix(e) + code == Postfix(x) + ([Operator(op)] + code);
      MachineRuns(m, vs, x, [Operator(op)] + code);
      MachineOne(m, vs + [ValueOf(m, x)], Operator(op), code);
      assert Pop(vs + [ValueOf(m, x)]) == vs;
    case Bin(op, l, r) =>
      assert Postfix(e) + code == Postfix(l) + (Postfix(r) + ([Operator(op)] + code));
      MachineRuns(m, vs, l, Postfix(r) + ([Operator(op)] + code));
      MachineRuns(m, vs + [ValueOf(m, l)], r, [Operator(op)] + code);
      var ws := vs + [ValueOf(m, l)] + [ValueOf(m, r)];
      MachineOne(m, ws, Operator(op), code);
      assert ws[..|ws| - 2] == vs;
    case Paren(x) => MachineRuns(m, vs, x, code);
    case Call(f, args) =>
      var n := Count(args);
      assert Postfix(e) + code == PostfixArgs(args) + ([Func(f, n)] + code);
      ArgsRun(m, vs, args, [Func(f, n)] + code);
      var ws := vs + ValuesOf(m, args);
      MachineOne(m, ws, Func(f, n), code);
      assert ws[..|ws| - n] == vs && ws[|ws| - n..] == ValuesOf(m, args);
  }

  lemma {:induction false} ArgsRun<V>(m: Semantics<V>, vs: seq<V>, a: Args<V>, code: seq<Element<V>>)
    requires LeveledArgs(a)
    ensures Machine(m, vs, PostfixArgs(a) + code) == Machine(m, vs + ValuesOf(m, a), code)
    decreases a, 0
  {
    match a
    case First(x) => MachineRuns(m, vs, x, code);
    case Then(b, x) =>
      assert PostfixArgs(a) + code == PostfixArgs(b) + (Postfix(x) + code);
      ArgsRun(m, vs, b, Postfix(x) + code);
      MachineRuns(m, vs + ValuesOf(m, b), x, code);
      assert vs + ValuesOf(m, b) + [ValueOf(m, x)] == vs + ValuesOf(m, a);
  }

  method ExecuteOperator<V>(m: Semantics<V>, stack: array<V>, top0: nat, op: Op) returns (top: nat)
    requires top0 <= stack.Length && Execute(m, stack[..top0], Operator(op)).Values?
    modifies stack
    ensures top <= top0 && stack[..top] == Execute(m, old(stack[..top0]), Operator(op)).vs
  {
    top := top0;
    if Unary(op) {
      stack[top - 1] := m.un(op, stack[top - 1]);
    } else {
      top := top - 1;
      stack[top - 1] := m.bin(op, stack[top - 1], stack[top]);
    }
  }

  method ExecuteFunction<V>(m: Semantics<V>, stack: array<V>, top0: nat, f: string, n: int) returns (top: nat)
    requires top0 <= stack.Length && Execute(m, stack[..top0], Func(f, n)).Values?
    modifies stack
    ensures top <= top0 && stack[..top] == Execute(m, old(stack[..top0]), Func(f, n)).vs
  {
    top := top0;
    if n == 2 && m.fun2(f).Fun2? {
      top := top - 1;
      stack[top - 1] := m.fun2(f).f(stack[top - 1], stack[top]);
    } else if n == 1 && m.fun1(f).Fun1? {
      stack[top - 1] := m.fun1(f).f(stack[top - 1]);
    } else {
      top := top - (n - 1);
    }
  }

  /** One turn of the second loop of ke_eval. */
  method ExecuteOn<V>(m: Semantics<V>, stack: array<V>, top0: nat, x: Element<V>) returns (top: nat)
    requires top0 < stack.Length && !x.Open? && Execute(m, stack[..top0], x).Values?
    modifies stack
    ensures top <= stack.Length && top <= top0 + 1 && stack[..top] == Execute(m, old(stack[..top0]), x).vs
  {
    match x {
      case Val(v) =>
        stack[top0] := v;
        top := top0 + 1;
        assert stack[..top] == old(stack[..top0]) + [v];
      case Operator(op) =>
        hide Execute;
        top := ExecuteOperator(m, stack, top0, op);
      case Func(f, n) =>
        hide Execute;
        top := ExecuteFunction(m, stack, top0, f, n);
    }
  }

  predicate Unknown<V>(m: Semantics<V>, x: Element<V>) {
    x.Func? && !(x.nArgs == 1 && m.fun1(x.f).Fun1?) && !(x.nArgs == 2 && m.fun2(x.f).Fun2?)
  }

  predicate HasUnknown<V>(m: Semantics<V>, code: seq<Element<V>>) {
    exists i :: 0 <= i < |code| && Unknown(m, code[i])
  }

  /** The first loop of ke_eval. */
  method AnyUnknown<V>(m: Semantics<V>, code: seq<Element<V>>) returns (unknown: bool)
    ensures unknown <==> HasUnknown(m, code)
  {
    unknown := false;
    var i := 0;
    while i < |code|
      invariant 0 <= i <= |code|
      invariant unknown <==> exists k :: 0 <= k < i && Unknown(m, code[k])
    {
      if Unknown(m, code[i]) {
        unknown := true;
      }
      i := i + 1;
    }
  }

  /** The postfix order of an expression can be executed, is supplied with values, and leaves the expression's value. */
  lemma PostfixRuns<V>(m: Semantics<V>, e: Expr<V>)
    requires Leveled(e)
    ensures Executable(Postfix(e)) && Supplied(Postfix(e), 0) && Balance(Postfix(e)) == 1
    ensures Machine(m, [], Postfix(e)) == Values([ValueOf(m, e)])
  {
    MachineRuns(m, [], e, []);
    assert Postfix(e) + [] == Postfix(e);
    assert [] + [ValueOf(m, e)] == [ValueOf(m, e)];
    PostfixExecutable(e);
    MachineSupplied(m, [], Postfix(e));
  }

  /** The state of the second loop of ke_eval before element i: the lowest `top` values of the stack and the rest of the
      code lead to the result. */
  ghost predicate Running<V>(m: Semantics<V>, vs: seq<V>, code: seq<Element<V>>, result: Stack<V>) {
    Executable(code) && Supplied(code, |vs|) && Machine(m, vs, code) == result
  }

  lemma RunningOn<V>(m: Semantics<V>, vs: seq<V>, code: seq<Element<V>>, result: Stack<V>)
    requires Running(m, vs, code, result) && code != []
    ensures !code[0].Open? && Execute(m, vs, code[0]).Values?
        && Running(m, Execute(m, vs, code[0]).vs, code[1..], result)
  {
    hide Execute, Needs, Effect;
    assert code[0] in code;
    ExecuteSupplied(m, vs, code[0]);
  }

  lemma RunningEnds<V>(m: Semantics<V>, vs: seq<V>, result: Stack<V>)
    requires Running(m, vs, [], result)
    ensures result == Values(vs)
  {
  }

  /** The second loop of ke_eval: the stack never underflows or outgrows its array. */
  method Run<V(0)>(m: Semantics<V>, code: seq<Element<V>>) returns (v: V)
    requires Executable(code) && Supplied(code, 0) && Balance(code) == 1
    ensures Machine(m, [], code) == Values([v])
  {
    ghost var result := Machine(m, [], code);
    MachineSupplied(m, [], code);
    assert Running(m, [], code, result);
    hide Machine, Supplied, Executable, Balance, Running, Execute;
    var stack := new V[|code|];
    var top := 0;
    assert stack[..0] == [] && code[0..] == code;
    var i := 0;
    while i < |code|
      invariant 0 <= i <= |code| && 0 <= top <= i
      invariant Running(m, stack[..top], code[i..], result)
    {
      RunningOn(m, stack[..top], code[i..], result);
      assert code[i..][1..] == code[i + 1..];
      top := ExecuteOn(m, stack, top, code[i]);
      i := i + 1;
    }
    assert code[i..] == [];
    RunningEnds(m, stack[..top], result);
    v := stack[0];
    assert stack[..top] == [v];
  }

  /** ke_eval: whether a function is unknown, and the value that the code leaves on the stack. */
  method Eval<V(0)>(m: Semantics<V>, code: seq<Element<V>>) returns (v: V, unknown: bool)
    requires Executable(code) && Supplied(code, 0) && Balance(code) == 1
    ensures Machine(m, [], code) == Values([v])
    ensures unknown <==> HasUnknown(m, code)
  {
    unknown := AnyUnknown(m, code);
    v := Run(m, code);
  }

  /** v is what the operator or the function at the top of e makes of the values below it: operators get the left value
      first, functions with an implementation for one argument or for two get them as they are written, and any other
      call has the value of its first argument. */
  ghost predicate Computed<V>(m: Semantics<V>, e: Expr<V>, v: V) {
    match e
    case Leaf(w) => v == w
    case Un(op, x) => v == m.un(op, ValueOf(m, x))
    case Bin(op, x, y) => v == m.bin(op, ValueOf(m, x), ValueOf(m, y))
    case Paren(x) => v == ValueOf(m, x)
    case Call(f, First(x)) => v == if m.fun1(f).Fun1? then m.fun1(f).f(ValueOf(m, x)) else ValueOf(m, x)
    case Call(f, Then(First(x), y)) =>
      v == if m.fun2(f).Fun2? then m.fun2(f).f(ValueOf(m, x), ValueOf(m, y)) else ValueOf(m, x)
    case Call(f, Then(Then(b, _), _)) => v == ValueOf(m, FirstArg(b))
  }

  lemma ValueComputed<V>(m: Semantics<V>, e: Expr<V>)
    ensures Computed(m, e, ValueOf(m, e))
  {
    match e
    case Call(f, First(x)) => CallValues(m, f, x, x, First(x));
    case Call(f, Then(First(x), y)) => CallValues(m, f, x, y, Then(First(x), y));
    case Call(f, Then(Then(b, x), y)) =>
      assert |ValuesOf(m, b)| == Count(b) >= 1;
      CallValues(m, f, x, y, Then(Then(b, x), y));
    case _ =>
  }

  /** Each call in e has one argument or two, and a function with an implementation for as many. */
  predicate Implemented<V>(m: Semantics<V>, e: Expr<V>) {
    match e
    case Leaf(_) => true
    case Un(_, x) => Implemented(m, x)
    case Bin(_, l, r) => Implemented(m, l) && Implemented(m, r)
    case Paren(x) => Implemented(m, x)
    case Call(f, First(x)) => m.fun1(f).Fun1? && Implemented(m, x)
    case Call(f, Then(First(x), y)) => m.fun2(f).Fun2? && Implemented(m, x) && Implemented(m, y)
    case Call(_, Then(Then(_, _), _)) => false
  }

  lemma UnknownAppend<V>(m: Semantics<V>, a: seq<Element<V>>, b: seq<Element<V>>)
    ensures HasUnknown(m, a + b) <==> HasUnknown(m, a) || HasUnknown(m, b)
  {
    hide Unknown;
    var c := a + b;
    if HasUnknown(m, a) {
      var i :| 0 <= i < |a| && Unknown(m, a[i]);
      assert Unknown(m, c[i]);
    }
    if HasUnknown(m, b) {
      var i :| 0 <= i < |b| && Unknown(m, b[i]);
      assert Unknown(m, c[|a| + i]);
    }
    if HasUnknown(m, c) {
      var i :| 0 <= i < |c| && Unknown(m, c[i]);
      assert if i < |a| then Unknown(m, a[i]) else Unknown(m, b[i - |a|]);
    }
  }

  lemma UnknownLast<V>(m: Semantics<V>, a: seq<Element<V>>, x: Element<V>)
    ensures HasUnknown(m, a + [x]) <==> HasUnknown(m, a) || Unknown(m, x)
  {
    hide Unknown;
    UnknownAppend(m, a, [x]);
    assert [x][0] == x;
  }

  /** A function is reported as unknown exactly if some call of the expression has none. */
  lemma {:induction false} UnknownCalls<V>(m: Semantics<V>, e: Expr<V>)
    ensures HasUnknown(m, Postfix(e)) <==> !Implemented(m, e)
    decreases e, 1
  {
    match e
    case Leaf(v) => assert Postfix(e) == [Val(v)];
    case Un(op, x) =>
      UnknownLast(m, Postfix(x), Operator(op));
      UnknownCalls(m, x);
    case Bin(op, l, r) =>
      UnknownLast(m, Postfix(l) + Postfix(r), Operator(op));
      UnknownAppend(m, Postfix(l), Postfix(r));
      UnknownCalls(m, l);
      UnknownCalls(m, r);
    case Paren(x) => UnknownCalls(m, x);
    case Call(f, args) =>
      UnknownLast(m, PostfixArgs(args), Func(f, Count(args)));
      UnknownArgs(m, f, args);
  }

  lemma {:induction false} UnknownArgs<V>(m: Semantics<V>, f: string, args: Args<V>)
    ensures HasUnknown(m, PostfixArgs(args)) || Unknown(m, Func(f, Count(args))) <==> !Implemented(m, Call(f, args))
    decreases args, 0
  {
    match args
    case First(x) => UnknownCalls(m, x);
    case Then(First(x), y) =>
      UnknownAppend(m, Postfix(x), Postfix(y));
      UnknownCalls(m, x);
      UnknownCalls(m, y);
    case Then(Then(b, _), _) => assert |ValuesOf(m, b)| == Count(b) >= 1;
  }

  /** From the tokens of an expression to its value, by way of its postfix order. */
  method Evaluate<V(0)>(m: Semantics<V>, ghost e: Expr<V>, tokens: seq<Token<V>>) returns (v: V, unknown: bool)
    requires Formed(e) && tokens == Print(e)
    ensures v == ValueOf(m, e) && Computed(m, e, v)
    ensures unknown <==> !Implemented(m, e)
  {
    ParseOfPrint(e);
    assert Leveled(e);
    PostfixRuns(m, e);
    ValueComputed(m, e);
    UnknownCalls(m, e);
    hide *;
    var code, err := Parse(tokens);
    v, unknown := Eval(m, code);
  }

  lemma {:induction false} PostfixExecutable<V>(e: Expr<V>)
    ensures Executable(Postfix(e))
    decreases e, 1
  {
    match e
    case Leaf(_) =>
    case Un(_, x) => PostfixExecutable(x);
    case Bin(_, l, r) =>
      PostfixExecutable(l);
      PostfixExecutable(r);
    case Paren(x) => PostfixExecutable(x);
    case Call(_, args) => PostfixArgsExecutable(args);
  }

  lemma {:induction false} PostfixArgsExecutable<V>(a: Args<V>)
    ensures Executable(PostfixArgs(a)) && Count(a) >= 1
    decreases a, 0
  {
    match a
    case First(x) => PostfixExecutable(x);
    case Then(b, x) =>
      PostfixArgsExecutable(b);
      PostfixExecutable(x);
  }

  /** A call whose second argument begins with a sign, f(v, -w): well parenthesized, and refused by ParsesExactly. */
  lemma SignedArgumentExample<V>(v: V, w: V)
    ensures var e := Call("f", Then(First(Leaf(v)), Un(KEO_NEG, Leaf(w)))); Leveled(e) && !Clean(e)
  {
    var first, second := First(Leaf(v)), Un(KEO_NEG, Leaf(w));
    assert LeveledArgs(first) && Leveled(second) && StartsSigned(second);
    assert LeveledArgs(Then(first, second)) && !CleanArgs(Then(first, second));
  }
}
