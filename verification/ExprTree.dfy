/** Expression trees, how they are written down, and the proof that the parser
    turns what was written into the tree's postorder. */
module ExprTree {
  import opened Prelude
  import opened Operators
  import opened ShuntingYard
  import L = ParserDfa

  datatype Expr =
    | Num(n: Literal)
    | Const(v: Value)
    | Text(s: string)
    | Bin(op: BinaryOp, l: Expr, r: Expr)
    | Neg(e: Expr)
    | App(f: Function, args: seq<Expr>)
    | Group(e: Expr)

  // ----- The reference: postorder ------------------------------------------

  function Postorder(e: Expr): seq<Item> {
    match e
    case Num(n) => [Operand(IntV(n))]
    case Const(v) => [Operand(v)]
    case Text(s) => [Operand(StrV(s))]
    case Bin(op, l, r) => Postorder(l) + Postorder(r) + [Operator(op)]
    case Neg(x) => Postorder(x) + [Operator(UnaryMinus)]
    case App(f, args) => Postorders(args) + [Call(f)]
    case Group(x) => Postorder(x)
  }

  function Postorders(es: seq<Expr>): seq<Item> {
    if es == [] then [] else Postorder(es[0]) + Postorders(es[1..])
  }

  // ----- Writing a tree ----------------------------------------------------

  function Glyph(op: BinaryOp): Token {
    if op == Minus then Dash else Symbol(op)
  }

  /** Whether `e` may stand without parentheses where operators up to rank `limit`
      may occur; `head` says that the place is right behind a left parenthesis, the
      only place where a dash is a unary minus. */
  predicate Fits(e: Expr, limit: nat, head: bool) {
    match e
    case Bin(op, _, _) => Rank(op) <= limit
    case Neg(_) => head
    case _ => true
  }

  /** The lexemes of `e`, with parentheses only where the enum order, the
      left-to-right grouping of equal operators or a unary minus asks for them, and
      where the tree has a Group of its own. */
  function Render(e: Expr, limit: nat, head: bool): seq<Token>
    decreases e, 1
  {
    if Fits(e, limit, head) then Body(e, head) else Enclosed(e)
  }

  function Enclosed(e: Expr): seq<Token>
    decreases e, 0, 1
  {
    [Left] + Body(e, true) + [Right]
  }

  /** A string needs the space: no operator may be followed directly by a quote. */
  function Body(e: Expr, head: bool): seq<Token>
    decreases e, 0, 0
  {
    match e
    case Num(n) => [Number(n)]
    case Const(v) => [Word(v)]
    case Text(s) => [Space, Quoted(s)]
    case Bin(op, l, r) => Render(l, Rank(op), head) + [Glyph(op)] + Render(r, Rank(op) - 1, false)
    case Neg(x) => [Dash] + (if x.Num? then [Number(x.n)] else Enclosed(x))
    case App(f, args) => [Name(f), Left] + RenderArgs(args, true) + [Right]
    case Group(x) => Enclosed(x)
  }

  function RenderArgs(es: seq<Expr>, head: bool): seq<Token>
    decreases es, 2
  {
    if es == [] then []
    else if |es| == 1 then Render(es[0], LOOSEST, head)
    else Render(es[0], LOOSEST, head) + [Separator] + RenderArgs(es[1..], false)
  }

  /** The text of a whole expression. */
  function Written(e: Expr): seq<Token> {
    Render(e, LOOSEST, false)
  }

  // ----- Feeding lexemes without delay -------------------------------------

  datatype Conf = Conf(q: L.LexState, s: State)

  function FeedOne(c: Conf, t: Token): Option<Conf> {
    var next := After(c.q, t);
    var (ok, s) := Step(c.s, ActionOf(c.q, t));
    if next != L.Invalid && ok then Some(Conf(next, s)) else None
  }

  function Feed(c: Conf, ts: seq<Token>): Option<Conf>
    decreases |ts|
  {
    if ts == [] then Some(c)
    else
      match FeedOne(c, ts[0])
      case None => None
      case Some(d) => Feed(d, ts[1..])
  }

  lemma {:induction false} FeedAppend(c: Conf, a: seq<Token>, b: seq<Token>, d: Conf)
    requires Feed(c, a) == Some(d)
    ensures Feed(c, a + b) == Feed(d, b)
    decreases |a|
  {
    hide FeedOne;
    if a == [] {
      assert a + b == b;
    } else {
      assert (a + b)[1..] == a[1..] + b;
      FeedAppend(FeedOne(c, a[0]).value, a[1..], b, d);
    }
  }

  lemma FeedLast(c: Conf, a: seq<Token>, t: Token, d: Conf)
    requires Feed(c, a) == Some(d)
    ensures Feed(c, a + [t]) == FeedOne(d, t)
  {
    hide FeedOne;
    FeedAppend(c, a, [t], d);
    assert [t][1..] == [];
  }

  lemma FeedJoined(c: Conf, first: seq<Token>, t: Token, rest: seq<Token>, a: Conf, b: Conf)
    requires Feed(c, first) == Some(a) && FeedOne(a, t) == Some(b)
    ensures Feed(c, first + [t] + rest) == Feed(b, rest)
  {
    hide Feed, FeedOne;
    FeedLast(c, first, t, a);
    FeedAppend(c, first + [t], rest, b);
  }

  lemma FeedFirst(c: Conf, t: Token, b: seq<Token>)
    ensures Feed(c, [t] + b) == match FeedOne(c, t) case None => None case Some(d) => Feed(d, b)
  {
    hide FeedOne;
    assert ([t] + b)[1..] == b;
  }

  /** When nothing fails on the way, the delayed work of the state handlers is the
      undelayed work of Feed. */
  lemma {:induction false} FeedCompiles(c: Conf, ts: seq<Token>, d: Conf)
    requires Feed(c, ts) == Some(d) && L.NextState(d.q, L.AEol) == L.End
    ensures Resolve(c.q, ts).Some? && Perform(c.s, Resolve(c.q, ts).value) == Some(d.s)
    decreases |ts|
  {
    hide After, Step, ActionOf;
    if ts != [] {
      var m := FeedOne(c, ts[0]).value;
      FeedCompiles(m, ts[1..], d);
      PerformHead(c.s, ActionOf(c.q, ts[0]), Resolve(m.q, ts[1..]).value);
    }
  }

  // ----- What the table allows around operands -----------------------------

  predicate StartsOperand(q: L.LexState) {
    q in {L.Start, L.LeftParen, L.Comma, L.And, L.Or, L.Plus, L.Minus, L.Cmp, L.Less, L.More}
  }

  predicate EndsOperand(q: L.LexState) {
    q in {L.Start, L.Alpha, L.Digit, L.RightParen}
  }

  lemma StartStates(q: L.LexState, k: L.Alphabet)
    requires StartsOperand(q) && k in {L.ADigit, L.AAlpha, L.ALeftParen, L.ASpace}
    ensures L.NextState(q, k) == L.OperandOnly(k)
  {
  }

  lemma OperandMayStart(q: L.LexState, t: Token)
    requires StartsOperand(q) && (t.Number? || t.Word? || t.Name? || t.Left? || t.Space?)
    ensures var next := After(q, t);
            next == (match t case Number(_) => L.Digit case Left => L.LeftParen case Space => L.Start case _ => L.Alpha)
  {
    hide L.NextState;
    StartStates(q, AlphabetOf(t));
  }

  lemma EndStates(q: L.LexState, k: L.Alphabet)
    requires EndsOperand(q)
    requires k in {L.ARightParen, L.AComma, L.AAnd, L.AOr, L.APlus, L.AMinus, L.ACmp, L.ALess, L.AMore, L.AEol}
    ensures L.NextState(q, k) == L.AfterOperandOnly(k)
  {
  }

  lemma UnaryMinusMayStart(t: Token)
    requires t.Number? || t.Left?
    ensures After(L.LeftParen, Dash) == L.UnaryMinus && ActionOf(L.LeftParen, Dash) == Operate(UnaryMinus)
    ensures After(L.UnaryMinus, t) == if t.Number? then L.Digit else L.LeftParen
  {
    hide L.NextState;
    UnaryMinusStates();
  }

  /** A unary minus arises right behind a left parenthesis and nowhere else. */
  lemma UnaryMinusIff(q: L.LexState, t: Token)
    ensures After(q, t) == L.UnaryMinus <==> q == L.LeftParen && t == Dash
  {
  }

  lemma UnaryMinusStates()
    ensures L.NextState(L.LeftParen, L.AMinus) == L.UnaryMinus
    ensures L.NextState(L.UnaryMinus, L.ADigit) == L.Digit
    ensures L.NextState(L.UnaryMinus, L.ALeftParen) == L.LeftParen
  {
  }

  lemma OperatorMayFollow(q: L.LexState, op: BinaryOp)
    requires EndsOperand(q)
    ensures StartsOperand(After(q, Glyph(op))) && ActionOf(q, Glyph(op)) == Operate(op)
  {
    hide L.NextState;
    EndStates(q, AlphabetOf(Glyph(op)));
  }

  lemma SeparatorMayFollow(q: L.LexState)
    requires EndsOperand(q)
    ensures After(q, Separator) == L.Comma && After(q, Right) == L.RightParen
    ensures L.NextState(q, L.AEol) == L.End
  {
    hide L.NextState;
    EndStates(q, L.AComma);
    EndStates(q, L.ARightParen);
    EndStates(q, L.AEol);
  }

  // ----- What waits on the operator stack ----------------------------------

  /** The stack under an operand whose own operators may reach rank `limit`: none of
      those operators pushes anything out of it. */
  predicate Shields(stack: seq<Stacked>, limit: nat) {
    stack == [] || stack[0].Paren? || (stack[0].Operator? && Rank(stack[0].op) > limit)
  }

  /** The operators of `e` that are still stacked when its last lexeme was read. */
  function Pending(e: Expr, limit: nat, head: bool): seq<Stacked>
    decreases e, 1
  {
    if Fits(e, limit, head) then BodyPending(e) else []
  }

  function BodyPending(e: Expr): seq<Stacked>
    decreases e, 0
  {
    match e
    case Bin(op, l, r) => Pending(r, Rank(op) - 1, false) + [Operator(op)]
    case Neg(_) => [Operator(UnaryMinus)]
    case _ => []
  }

  predicate AllUpTo(p: seq<Stacked>, limit: nat) {
    forall i | 0 <= i < |p| :: p[i].Operator? && Rank(p[i].op) <= limit
  }

  lemma {:induction false} PendingUpTo(e: Expr, limit: nat, head: bool)
    requires UNARY_RANK <= limit
    ensures AllUpTo(Pending(e, limit, head), limit)
    decreases e
  {
    if Fits(e, limit, head) && e.Bin? {
      PendingUpTo(e.r, Rank(e.op) - 1, false);
    }
  }

  lemma {:induction false} DrainYielding(p: seq<Stacked>, stack: seq<Stacked>, queue: seq<Item>, op: Oper)
    requires AllUpTo(p, Rank(op)) && Shields(stack, Rank(op))
    ensures PopYielding(State(p + stack, queue), op) == State(stack, queue + p)
    decreases |p|
  {
    if p == [] {
      assert p + stack == stack && queue + p == queue;
    } else {
      var s := State(p + stack, queue);
      assert PopToQueue(s) == State(p[1..] + stack, queue + [p[0]]);
      assert Yields(s.stack[0], op);
      DrainYielding(p[1..], stack, queue + [p[0]], op);
      assert queue + [p[0]] + p[1..] == queue + p;
    }
  }

  lemma {:induction false} DrainToParen(p: seq<Stacked>, stack: seq<Stacked>, queue: seq<Item>)
    requires AllUpTo(p, LOOSEST)
    ensures PopToParen(State(p + [Paren] + stack, queue)) == State([Paren] + stack, queue + p)
    decreases |p|
  {
    if p == [] {
      assert p + [Paren] + stack == [Paren] + stack && queue + p == queue;
    } else {
      DrainToParen(p[1..], stack, queue + [p[0]]);
      assert (p + [Paren] + stack)[1..] == p[1..] + [Paren] + stack;
      assert queue + p == queue + [p[0]] + p[1..];
    }
  }

  lemma {:induction false} DrainAll(p: seq<Stacked>, queue: seq<Item>)
    requires AllUpTo(p, LOOSEST)
    ensures Flushed(State(p, queue)) == State([], queue + p)
    decreases |p|
  {
    if p == [] {
      assert queue + p == queue;
    } else {
      DrainAll(p[1..], queue + [p[0]]);
      assert queue + p == queue + [p[0]] + p[1..];
    }
  }

  // ----- The main induction ------------------------------------------------

  /** `d` is reached from `c` by reading an operand with value `out` in postorder,
      whose operators `p` still wait. */
  ghost predicate Read(c: Conf, d: Conf, p: seq<Stacked>, out: seq<Item>) {
    EndsOperand(d.q) && d.s.stack == p + c.s.stack && d.s.queue + p == c.s.queue + out
  }

  /** Where the text of an operand may begin. */
  ghost predicate Ready(c: Conf, limit: nat, head: bool) {
    && StartsOperand(c.q)
    && UNARY_RANK <= limit <= LOOSEST
    && Shields(c.s.stack, limit)
    && (head ==> c.q == L.LeftParen && c.s.stack != [] && c.s.stack[0].Paren?)
  }

  /** A right parenthesis moves what waits above its partner, and the function below. */
  lemma CloseDrains(m: Conf, p: seq<Stacked>, below: seq<Stacked>)
    requires After(m.q, Right) == L.RightParen
    requires m.s.stack == p + [Paren] + below && AllUpTo(p, LOOSEST)
    ensures FeedOne(m, Right) == Some(Conf(L.RightParen,
              if below != [] && below[0].Call?
              then State(below[1..], m.s.queue + p + [below[0]]) else State(below, m.s.queue + p)))
  {
    hide After;
    DrainToParen(p, below, m.s.queue);
    assert ([Paren] + below)[1..] == below;
  }

  lemma {:induction false} FeedRender(e: Expr, limit: nat, head: bool, c: Conf) returns (d: Conf)
    requires Ready(c, limit, head)
    ensures Feed(c, Render(e, limit, head)) == Some(d)
    ensures Read(c, d, Pending(e, limit, head), Postorder(e))
    decreases e, 1
  {
    hide FeedOne, Feed, Body, Postorder, BodyPending, Fits, After;
    if Fits(e, limit, head) {
      d := FeedBody(e, limit, head, c);
    } else {
      OperandMayStart(c.q, Left);
      d := FeedEnclosed(e, c);
      assert [] + c.s.stack == c.s.stack && d.s.queue + [] == d.s.queue;
    }
  }

  lemma FeedOpens(c: Conf, o: Conf)
    requires After(c.q, Left) == L.LeftParen && o == Conf(L.LeftParen, State([Paren] + c.s.stack, c.s.queue))
    ensures FeedOne(c, Left) == Some(o)
  {
    hide After;
  }

  /** An operand in parentheses, below which no function waits for them. */
  lemma {:induction false} FeedEnclosed(e: Expr, c: Conf) returns (d: Conf)
    requires After(c.q, Left) == L.LeftParen
    requires c.s.stack == [] || !c.s.stack[0].Call?
    ensures Feed(c, Enclosed(e)) == Some(d)
    ensures EndsOperand(d.q) && d.s == State(c.s.stack, c.s.queue + Postorder(e))
    decreases e, 0, 2
  {
    hide Feed, FeedOne, After, Body, Postorder, BodyPending;
    var o := Conf(L.LeftParen, State([Paren] + c.s.stack, c.s.queue));
    FeedOpens(c, o);
    var m := FeedBody(e, LOOSEST, true, o);
    var p := BodyPending(e);
    PendingUpTo(e, LOOSEST, true);
    SeparatorMayFollow(m.q);
    assert m.s.stack == p + [Paren] + c.s.stack;
    CloseDrains(m, p, c.s.stack);
    d := FeedOne(m, Right).value;
    FeedLast(o, Body(e, true), Right, m);
    FeedFirst(c, Left, Body(e, true) + [Right]);
    assert Enclosed(e) == [Left] + (Body(e, true) + [Right]);
  }

  lemma {:induction false} FeedBody(e: Expr, limit: nat, head: bool, c: Conf) returns (d: Conf)
    requires Ready(c, limit, head) && Fits(e, limit, head)
    ensures Feed(c, Body(e, head)) == Some(d)
    ensures Read(c, d, BodyPending(e), Postorder(e))
    decreases e, 0, 1
  {
    match e {
      case Num(n) => d := FeedLeaf(e, head, c);
      case Const(v) => d := FeedLeaf(e, head, c);
      case Text(s) => d := FeedLeaf(e, head, c);
      case Bin(op, l, r) => d := FeedBinary(e, limit, head, c);
      case Neg(x) => d := FeedNegation(e, limit, c);
      case App(f, args) => d := FeedApplication(e, head, c);
      case Group(x) =>
        OperandMayStart(c.q, Left);
        d := FeedEnclosed(x, c);
        assert [] + c.s.stack == c.s.stack && d.s.queue + [] == d.s.queue;
    }
  }

  lemma FeedLeaf(e: Expr, head: bool, c: Conf) returns (d: Conf)
    requires StartsOperand(c.q) && (e.Num? || e.Const? || e.Text?)
    ensures Feed(c, Body(e, head)) == Some(d)
    ensures Read(c, d, BodyPending(e), Postorder(e))
  {
    hide After, Feed;
    match e {
      case Num(n) => d := FeedLexeme(c, Number(n), IntV(n));
      case Const(v) => d := FeedLexeme(c, Word(v), v);
      case Text(s) => d := FeedText(c, s);
    }
  }

  lemma FeedLexeme(c: Conf, t: Token, v: Value) returns (d: Conf)
    requires StartsOperand(c.q) && (t == Word(v) || (t.Number? && v == IntV(t.n)))
    ensures Feed(c, [t]) == Some(d) && Read(c, d, [], [Operand(v)])
  {
    hide After, Feed;
    OperandMayStart(c.q, t);
    d := FeedOne(c, t).value;
    FeedFirst(c, t, []);
    FeedNothing(d);
    assert [t] + [] == [t];
    assert [] + c.s.stack == c.s.stack && d.s.queue + [] == d.s.queue;
  }

  lemma FeedText(c: Conf, s: string) returns (d: Conf)
    requires StartsOperand(c.q)
    ensures Feed(c, [Space, Quoted(s)]) == Some(d) && Read(c, d, [], [Operand(StrV(s))])
  {
    hide After, Feed;
    OperandMayStart(c.q, Space);
    var m := FeedOne(c, Space).value;
    QuotedFromStart(s);
    d := FeedOne(m, Quoted(s)).value;
    FeedFirst(c, Space, [Quoted(s)]);
    FeedFirst(m, Quoted(s), []);
    FeedNothing(d);
    assert [Space] + [Quoted(s)] == [Space, Quoted(s)] && [Quoted(s)] + [] == [Quoted(s)];
    assert [] + c.s.stack == c.s.stack && d.s.queue + [] == d.s.queue;
  }

  lemma QuotedFromStart(s: string)
    ensures After(L.Start, Quoted(s)) == L.Start
  {
  }

  lemma {:induction false} FeedBinary(e: Expr, limit: nat, head: bool, c: Conf) returns (d: Conf)
    requires Ready(c, limit, head) && Fits(e, limit, head) && e.Bin?
    ensures Feed(c, Body(e, head)) == Some(d)
    ensures Read(c, d, BodyPending(e), Postorder(e))
    decreases e, 0, 0
  {
    hide Feed, FeedOne, After, Pending, ActionOf;
    var op, l, r := e.op, e.l, e.r;
    var a := FeedRender(l, Rank(op), head, c);
    var p := Pending(l, Rank(op), head);
    PendingUpTo(l, Rank(op), head);
    var b := FeedOperator(a, p, c.s.stack, op);
    d := FeedRender(r, Rank(op) - 1, false, b);
    var left := Render(l, Rank(op), head);
    FeedJoined(c, left, Glyph(op), Render(r, Rank(op) - 1, false), a, b);
    var q := Pending(r, Rank(op) - 1, false);
    assert q + b.s.stack == q + [Operator(op)] + c.s.stack;
    JoinQueues(d.s.queue, q, c.s.queue, Postorder(l), Postorder(r), Operator(op));
  }

  /** An operator drains what waits for it and takes its place. */
  lemma FeedOperator(a: Conf, p: seq<Stacked>, below: seq<Stacked>, op: BinaryOp) returns (b: Conf)
    requires EndsOperand(a.q) && a.s.stack == p + below
    requires AllUpTo(p, Rank(op)) && Shields(below, Rank(op))
    ensures FeedOne(a, Glyph(op)) == Some(b) && StartsOperand(b.q)
    ensures b.s == State([Operator(op)] + below, a.s.queue + p)
  {
    hide After, AllUpTo, Shields;
    DrainYielding(p, below, a.s.queue, op);
    OperatorMayFollow(a.q, op);
    b := FeedOne(a, Glyph(op)).value;
  }

  lemma JoinQueues(queue: seq<Item>, p: seq<Item>, start: seq<Item>, l: seq<Item>, r: seq<Item>, last: Item)
    requires queue + p == start + l + r
    ensures queue + (p + [last]) == start + (l + r + [last])
  {
    assert queue + (p + [last]) == (queue + p) + [last];
  }

  lemma {:induction false} FeedNegation(e: Expr, limit: nat, c: Conf) returns (d: Conf)
    requires Ready(c, limit, true) && e.Neg?
    ensures Feed(c, Body(e, true)) == Some(d)
    ensures Read(c, d, BodyPending(e), Postorder(e))
    decreases e, 0, 0
  {
    hide Feed, After, ActionOf;
    var x := e.e;
    var t := if x.Num? then Number(x.n) else Left;
    UnaryMinusMayStart(t);
    var b := FeedOne(c, Dash).value;
    assert b == Conf(L.UnaryMinus, State([Operator(UnaryMinus)] + c.s.stack, c.s.queue));
    var rest := if x.Num? then [t] else Enclosed(x);
    FeedFirst(c, Dash, rest);
    if x.Num? {
      d := FeedNumber(b, x.n);
    } else {
      d := FeedEnclosed(x, b);
    }
    assert c.s.queue + Postorder(x) + [Operator(UnaryMinus)] == c.s.queue + (Postorder(x) + [Operator(UnaryMinus)]);
  }

  lemma FeedNumber(c: Conf, n: Literal) returns (d: Conf)
    requires After(c.q, Number(n)) == L.Digit
    ensures Feed(c, [Number(n)]) == Some(d)
    ensures d == Conf(L.Digit, State(c.s.stack, c.s.queue + [Operand(IntV(n))]))
  {
    hide After;
    d := FeedOne(c, Number(n)).value;
    FeedFirst(c, Number(n), []);
    assert [Number(n)] + [] == [Number(n)];
  }

  lemma {:induction false} FeedApplication(e: Expr, head: bool, c: Conf) returns (d: Conf)
    requires StartsOperand(c.q) && e.App?
    ensures Feed(c, Body(e, head)) == Some(d)
    ensures Read(c, d, BodyPending(e), Postorder(e))
    decreases e, 0, 0
  {
    hide Feed, After, FeedOne;
    var f, args := e.f, e.args;
    var a := Conf(L.Alpha, State([Call(f)] + c.s.stack, c.s.queue));
    var b := Conf(L.LeftParen, State([Paren] + a.s.stack, c.s.queue));
    FeedCallOpens(c, f, a, b);
    AlphaOpens();
    var m, p := FeedArgs(args, true, b);
    assert m.s.stack == p + [Paren] + a.s.stack;
    CloseDrains(m, p, a.s.stack);
    d := FeedOne(m, Right).value;
    var inner := RenderArgs(args, true);
    FeedLast(b, inner, Right, m);
    FeedFirst(a, Left, inner + [Right]);
    FeedFirst(c, Name(f), [Left] + (inner + [Right]));
    assert Body(e, head) == [Name(f)] + ([Left] + (inner + [Right]));
    assert a.s.stack[1..] == c.s.stack && [] + c.s.stack == c.s.stack;
    assert d.s.queue + [] == c.s.queue + (Postorders(args) + [Call(f)]);
  }

  lemma FeedCallOpens(c: Conf, f: Function, a: Conf, b: Conf)
    requires StartsOperand(c.q)
    requires a == Conf(L.Alpha, State([Call(f)] + c.s.stack, c.s.queue))
    requires b == Conf(L.LeftParen, State([Paren] + a.s.stack, c.s.queue))
    ensures FeedOne(c, Name(f)) == Some(a) && FeedOne(a, Left) == Some(b)
  {
    hide After;
    OperandMayStart(c.q, Name(f));
    AlphaOpens();
    FeedOpens(a, b);
  }

  lemma AlphaOpens()
    ensures After(L.Alpha, Left) == L.LeftParen && After(L.LeftParen, Right) == L.RightParen
  {
    hide L.NextState;
    ParenStates();
  }

  lemma ParenStates()
    ensures L.NextState(L.Alpha, L.ALeftParen) == L.LeftParen
    ensures L.NextState(L.LeftParen, L.ARightParen) == L.RightParen
  {
  }

  /** The arguments of a call; `p` is what the last one leaves waiting. */
  lemma {:induction false} FeedArgs(es: seq<Expr>, head: bool, c: Conf) returns (d: Conf, p: seq<Stacked>)
    requires Ready(c, LOOSEST, head) && c.s.stack != [] && c.s.stack[0].Paren?
    requires es == [] ==> c.q == L.LeftParen
    ensures Feed(c, RenderArgs(es, head)) == Some(d)
    ensures After(d.q, Right) == L.RightParen && AllUpTo(p, LOOSEST)
    ensures d.s.stack == p + c.s.stack && d.s.queue + p == c.s.queue + Postorders(es)
    decreases es, 2
  {
    hide Feed, After, Pending, Postorder, FeedOne;
    if es == [] {
      d, p := c, [];
      AlphaOpens();
      FeedNothing(c);
      assert p + c.s.stack == c.s.stack && d.s.queue + p == c.s.queue + [];
    } else {
      d := FeedRender(es[0], LOOSEST, head, c);
      p := Pending(es[0], LOOSEST, head);
      PendingUpTo(es[0], LOOSEST, head);
      SeparatorMayFollow(d.q);
      if |es| == 1 {
        assert Postorders(es[1..]) == [] && Postorders(es) == Postorder(es[0]);
      } else {
        var a := d;
        var first := Render(es[0], LOOSEST, head);
        assert c.s.stack == [Paren] + c.s.stack[1..];
        var b := FeedSeparator(a, p, c.s.stack[1..]);
        assert b.s.stack == c.s.stack;
        d, p := FeedArgs(es[1..], false, b);
        FeedJoined(c, first, Separator, RenderArgs(es[1..], false), a, b);
        assert c.s.queue + Postorder(es[0]) + Postorders(es[1..]) == c.s.queue + Postorders(es);
      }
    }
  }

  lemma FeedNothing(c: Conf)
    ensures Feed(c, []) == Some(c)
  {
  }

  lemma FeedSeparator(a: Conf, p: seq<Stacked>, below: seq<Stacked>) returns (b: Conf)
    requires After(a.q, Separator) == L.Comma
    requires a.s.stack == p + [Paren] + below && AllUpTo(p, LOOSEST)
    ensures FeedOne(a, Separator) == Some(b)
    ensures b == Conf(L.Comma, State([Paren] + below, a.s.queue + p))
  {
    hide After;
    DrainToParen(p, below, a.s.queue);
    b := FeedOne(a, Separator).value;
  }

  /** The main theorem of the parser: whatever tree is written down, the parser accepts
      the text and its queue is the postorder of the tree. */
  lemma WrittenCompiles(e: Expr)
    ensures Compiled(Written(e)) == Some(Postorder(e))
  {
    hide Feed, Postorder, Pending, Resolve, Perform, Render;
    var c := Conf(L.Start, EMPTY);
    var d := FeedRender(e, LOOSEST, false, c);
    SeparatorMayFollow(d.q);
    FeedCompiles(c, Written(e), d);
    var p := Pending(e, LOOSEST, false);
    PendingUpTo(e, LOOSEST, false);
    DrainAll(p, d.s.queue);
    assert d.s.stack == p && d.s.queue + p == Postorder(e);
  }

  /** The enum order, not the order of C: a dash binds tighter than a plus, so that
      a + b - c is read as a + (b - c). */
  lemma DashBindsTighterThanPlus(a: Literal, b: Literal, c: Literal)
    ensures Compiled([Number(a), Symbol(Plus), Number(b), Dash, Number(c)])
            == Some(Postorder(Bin(Plus, Num(a), Bin(Minus, Num(b), Num(c)))))
  {
    hide Compiled, Postorder;
    var difference := Bin(Minus, Num(b), Num(c));
    var sum := Bin(Plus, Num(a), difference);
    assert forall n: Literal, limit: nat :: Render(Num(n), limit, false) == [Number(n)];
    assert Body(difference, false) == [Number(b)] + [Dash] + [Number(c)];
    assert Fits(difference, Rank(Plus) - 1, false) && Fits(sum, LOOSEST, false);
    assert Body(sum, false) == [Number(a)] + [Symbol(Plus)] + Body(difference, false);
    assert Written(sum) == [Number(a), Symbol(Plus), Number(b), Dash, Number(c)];
    WrittenCompiles(sum);
  }
}
