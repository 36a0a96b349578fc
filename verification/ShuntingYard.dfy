/** command_parser.c: from lexemes to reverse Polish notation. The operator stack is
    kept front first, so index 0 is what stack_peek_front returns. */
module ShuntingYard {
  import opened Prelude
  import opened Operators
  import L = ParserDfa

  // ----- Lexemes and the work they cause -----------------------------------

  /** What the tokeniser delivers. A dash is one lexeme: only the table tells a
      unary minus from a binary one. */
  datatype Token =
    | Number(n: Literal)
    | Word(v: Value)
    | Quoted(s: string)
    | Name(f: Function)
    | Symbol(op: SymbolOp)
    | Dash
    | Left
    | Right
    | Separator
    | Space

  /** The work done for one lexeme once the next state is entered. */
  datatype Action =
    | PushNumber(n: Literal)
    | PushValue(v: Value)
    | PushFunction(f: Function)
    | Operate(op: Oper)
    | Open
    | Close
    | Part
    | Skip

  function AlphabetOf(t: Token): L.Alphabet {
    match t
    case Number(_) => L.ADigit
    case Word(_) => L.AAlpha
    case Name(_) => L.AAlpha
    case Quoted(_) => L.AQuote
    case Dash => L.AMinus
    case Left => L.ALeftParen
    case Right => L.ARightParen
    case Separator => L.AComma
    case Space => L.ASpace
    case Symbol(op) =>
      match op
      case Plus => L.APlus
      case Less => L.ALess
      case More => L.AMore
      case Cmp => L.ACmp
      case And => L.AAnd
      case Or => L.AOr
  }

  /** Two lexemes that the tokeniser would have read as one. */
  predicate Merges(q: L.LexState, t: Token) {
    || (q == L.Alpha && (t.Word? || t.Name? || t.Number?))
    || (q == L.Digit && t.Number?)
  }

  /** The state after lexeme `t`. A whole quoted string takes CAPTURE_STRING and
      leaves it again by its closing quote. */
  function After(q: L.LexState, t: Token): L.LexState {
    if Merges(q, t) then L.Invalid
    else
      var next := L.NextState(q, AlphabetOf(t));
      if next == L.CaptureString then L.NextState(next, L.AQuote) else next
  }

  function ActionOf(q: L.LexState, t: Token): Action {
    match t
    case Number(n) => PushNumber(n)
    case Word(v) => PushValue(v)
    case Quoted(s) => PushValue(StrV(s))
    case Name(f) => PushFunction(f)
    case Symbol(op) => Operate(op)
    case Dash => Operate(if After(q, t) == L.UnaryMinus then UnaryMinus else Minus)
    case Left => Open
    case Right => Close
    case Separator => Part
    case Space => Skip
  }

  /** The actions of a lexeme list read from state `q`, or None when the table has no
      way on, at the end of the line at the latest. */
  function Resolve(q: L.LexState, ts: seq<Token>): Option<seq<Action>>
    decreases |ts|
  {
    if ts == [] then
      if L.NextState(q, L.AEol) == L.End then Some([]) else None
    else if After(q, ts[0]) == L.Invalid then None
    else
      match Resolve(After(q, ts[0]), ts[1..])
      case None => None
      case Some(rest) => Some([ActionOf(q, ts[0])] + rest)
  }

  // ----- Stack and queue ---------------------------------------------------

  /** TokenType: what a stack or queue cell holds. */
  datatype Item = Operand(v: Value) | Operator(op: Oper) | Call(f: Function) | Paren

  /** An operand never reaches the operator stack. */
  type Stacked = i: Item | !i.Operand? witness Paren

  function TypeOf(i: Stacked): OpType {
    match i
    case Operator(op) => op
    case Call(f) => if f.isService then ServiceMethod else DeviceFunction
    case Paren => LeftParenthesis
  }

  datatype State = State(stack: seq<Stacked>, queue: seq<Item>)

  const EMPTY: State := State([], [])

  function PopToQueue(s: State): State
    requires s.stack != []
  {
    State(s.stack[1..], s.queue + [s.stack[0]])
  }

  /** The test in process_operator_token that lets the stacked operator out. */
  predicate Yields(top: Stacked, op: Oper) {
    (Rank(op) >= Rank(TypeOf(top)) || (op == UnaryMinus && Rank(op) > Rank(TypeOf(top)))) && !top.Paren?
  }

  function PopYielding(s: State, op: Oper): State
    decreases |s.stack|
  {
    if s.stack != [] && Yields(s.stack[0], op) then PopYielding(PopToQueue(s), op) else s
  }

  function PopToParen(s: State): State
    decreases |s.stack|
  {
    if s.stack != [] && !s.stack[0].Paren? then PopToParen(PopToQueue(s)) else s
  }

  /** process_operator_token */
  function Operated(s: State, op: Oper): State {
    var p := PopYielding(s, op);
    p.(stack := [Operator(op)] + p.stack)
  }

  /** process_parenthesis_token on a right parenthesis */
  function Closed(s: State): (bool, State) {
    var p := PopToParen(s);
    if p.stack == [] then (false, p)
    else
      var q := p.(stack := p.stack[1..]);
      (true, if q.stack != [] && q.stack[0].Call? then PopToQueue(q) else q)
  }

  /** state_end: what is left moves to the queue, unmatched parentheses are dropped. */
  function Flushed(s: State): State
    decreases |s.stack|
  {
    if s.stack == [] then s
    else if s.stack[0].Paren? then Flushed(s.(stack := s.stack[1..]))
    else Flushed(PopToQueue(s))
  }

  function Step(s: State, a: Action): (bool, State) {
    match a
    case PushNumber(n) => (true, s.(queue := s.queue + [Operand(IntV(n))]))
    case PushValue(v) => (true, s.(queue := s.queue + [Operand(v)]))
    case PushFunction(f) => (true, s.(stack := [Call(f)] + s.stack))
    case Operate(op) => (true, Operated(s, op))
    case Open => (true, s.(stack := [Paren] + s.stack))
    case Close => Closed(s)
    case Part => var p := PopToParen(s); (p.stack != [], p)
    case Skip => (true, s)
  }

  /** A failed action stops the run, except that state_digit does not look at the
      result: a number right behind the failing lexeme lets the run go on. */
  function Perform(s: State, acts: seq<Action>): Option<State>
    decreases |acts|
  {
    if acts == [] then Some(s)
    else
      var (ok, next) := Step(s, acts[0]);
      if ok || (|acts| > 1 && acts[1].PushNumber?) then Perform(next, acts[1..]) else None
  }

  /** command_parser_compile_expression on the lexemes of a text. */
  function Compiled(ts: seq<Token>): Option<seq<Item>> {
    match Resolve(L.Start, ts)
    case None => None
    case Some(acts) =>
      match Perform(EMPTY, acts)
      case None => None
      case Some(s) => Some(Flushed(s).queue)
  }

  /** What remains to be done when `waiting` is owed and `ts` is unread. */
  function Remaining(s: State, waiting: Action, q: L.LexState, ts: seq<Token>): Option<State> {
    match Resolve(q, ts)
    case None => None
    case Some(acts) => Perform(s, [waiting] + acts)
  }

  lemma PerformHead(s: State, a: Action, rest: seq<Action>)
    ensures Perform(s, [a] + rest) ==
            if Step(s, a).0 || (rest != [] && rest[0].PushNumber?) then Perform(Step(s, a).1, rest) else None
  {
    assert ([a] + rest)[1..] == rest;
  }

  lemma ResolveHead(q: L.LexState, ts: seq<Token>)
    requires ts != [] && Resolve(q, ts).Some?
    ensures After(q, ts[0]) != L.Invalid && Resolve(After(q, ts[0]), ts[1..]).Some?
    ensures Resolve(q, ts).value == [ActionOf(q, ts[0])] + Resolve(After(q, ts[0]), ts[1..]).value
    ensures Resolve(q, ts).value[0].PushNumber? == ts[0].Number?
  {
    hide After, ActionOf, L.NextState;
    ActionOfNumber(q, ts[0]);
    var rest := Resolve(After(q, ts[0]), ts[1..]).value;
    assert ([ActionOf(q, ts[0])] + rest)[0] == ActionOf(q, ts[0]);
  }

  lemma ActionOfNumber(q: L.LexState, t: Token)
    ensures ActionOf(q, t).PushNumber? == t.Number?
  {
    hide After;
  }

  lemma RemainingStep(s: State, waiting: Action, q: L.LexState, ts: seq<Token>)
    requires ts != []
    ensures Remaining(s, waiting, q, ts) ==
            if After(q, ts[0]) != L.Invalid && (Step(s, waiting).0 || ts[0].Number?)
            then Remaining(Step(s, waiting).1, ActionOf(q, ts[0]), After(q, ts[0]), ts[1..]) else None
  {
    match Resolve(q, ts) {
      case None =>
      case Some(acts) =>
        ResolveHead(q, ts);
        PerformHead(s, waiting, acts);
    }
  }

  lemma RemainingEnd(s: State, waiting: Action, q: L.LexState)
    ensures Remaining(s, waiting, q, []) ==
            if L.NextState(q, L.AEol) == L.End && Step(s, waiting).0 then Some(Step(s, waiting).1) else None
  {
    if L.NextState(q, L.AEol) == L.End {
      PerformHead(s, waiting, []);
    }
  }

  lemma PerformSkip(ts: seq<Token>)
    ensures Compiled(ts) == match Remaining(EMPTY, Skip, L.Start, ts)
                            case None => None
                            case Some(s) => Some(Flushed(s).queue)
  {
    if Resolve(L.Start, ts).Some? {
      var acts := Resolve(L.Start, ts).value;
      assert ([Skip] + acts)[1..] == acts;
    }
  }

  // ----- The parser itself -------------------------------------------------

  class Parser {
    var operatorStack: seq<Stacked>
    var operandQueue: seq<Item>

    constructor ()
      ensures Contents() == EMPTY
    {
      operatorStack, operandQueue := [], [];
    }

    function Contents(): State
      reads this
    {
      State(operatorStack, operandQueue)
    }

    method MoveTop()
      requires operatorStack != []
      modifies this
      ensures Contents() == PopToQueue(old(Contents()))
    {
      operandQueue := operandQueue + [operatorStack[0]];
      operatorStack := operatorStack[1..];
    }

    method ProcessOperatorToken(op: Oper)
      modifies this
      ensures Contents() == Operated(old(Contents()), op)
    {
      while operatorStack != [] && Yields(operatorStack[0], op)
        invariant PopYielding(Contents(), op) == PopYielding(old(Contents()), op)
        decreases |operatorStack|
      {
        MoveTop();
      }
      operatorStack := [Operator(op)] + operatorStack;
    }

    method ProcessCommaToken() returns (leftParenthesisFound: bool)
      modifies this
      ensures (leftParenthesisFound, Contents()) == Step(old(Contents()), Part)
    {
      leftParenthesisFound := false;
      while operatorStack != [] && !leftParenthesisFound
        invariant PopToParen(Contents()) == PopToParen(old(Contents()))
        invariant leftParenthesisFound ==> operatorStack != [] && operatorStack[0].Paren?
        decreases |operatorStack|, !leftParenthesisFound
      {
        if TypeOf(operatorStack[0]) != LeftParenthesis {
          MoveTop();
        } else {
          leftParenthesisFound := true;
        }
      }
    }

    method ProcessRightParenthesis() returns (leftParenthesisFound: bool)
      modifies this
      ensures (leftParenthesisFound, Contents()) == Closed(old(Contents()))
    {
      leftParenthesisFound := false;
      while operatorStack != [] && !leftParenthesisFound
        invariant !leftParenthesisFound ==> PopToParen(Contents()) == PopToParen(old(Contents()))
        invariant leftParenthesisFound ==> (true, Contents()) == Closed(old(Contents()))
        decreases !leftParenthesisFound, |operatorStack|
      {
        if operatorStack[0].Paren? {
          leftParenthesisFound := true;
          operatorStack := operatorStack[1..];
          if operatorStack != [] && operatorStack[0].Call? {
            MoveTop();
          }
        } else {
          MoveTop();
        }
      }
    }

    /** process_state_transition: the work owed for the lexeme just left. */
    method Process(a: Action) returns (ok: bool)
      modifies this
      ensures (ok, Contents()) == Step(old(Contents()), a)
    {
      ok := true;
      match a
      case PushNumber(n) => operandQueue := operandQueue + [Operand(IntV(n))];
      case PushValue(v) => operandQueue := operandQueue + [Operand(v)];
      case PushFunction(f) => operatorStack := [Call(f)] + operatorStack;
      case Operate(op) => ProcessOperatorToken(op);
      case Open => operatorStack := [Paren] + operatorStack;
      case Close => ok := ProcessRightParenthesis();
      case Part => ok := ProcessCommaToken();
      case Skip =>
    }

    /** The flush in state_end. */
    method Flush()
      modifies this
      ensures Contents() == Flushed(old(Contents())) && operatorStack == []
    {
      while operatorStack != []
        invariant Flushed(Contents()) == Flushed(old(Contents()))
        decreases |operatorStack|
      {
        if operatorStack[0].Paren? {
          operatorStack := operatorStack[1..];
        } else {
          MoveTop();
        }
      }
    }

    /** parser_dfa_run over the state handlers: each handler first does the work of
        the lexeme before, and the lexeme it was entered for waits. */
    method Compile(ts: seq<Token>) returns (ok: bool)
      requires Contents() == EMPTY
      modifies this
      ensures ok == Compiled(ts).Some?
      ensures ok ==> operatorStack == [] && operandQueue == Compiled(ts).value
    {
      hide After, Merges, ActionOf, Step, Compiled, Remaining;
      var q := L.Start;
      var waiting := Skip;
      var i := 0;
      PerformSkip(ts);
      while i < |ts|
        invariant i <= |ts|
        invariant Remaining(Contents(), waiting, q, ts[i..]) == Remaining(EMPTY, Skip, L.Start, ts)
      {
        RemainingStep(Contents(), waiting, q, ts[i..]);
        assert ts[i..][1..] == ts[i + 1..];
        var next := After(q, ts[i]);
        if next == L.Invalid {
          return false;
        }
        var done := Process(waiting);
        if !done && !ts[i].Number? {
          return false;
        }
        waiting := ActionOf(q, ts[i]);
        q := next;
        i := i + 1;
      }
      if L.NextState(q, L.AEol) != L.End {
        RemainingEnd(Contents(), waiting, q);
        assert ts[i..] == [];
        return false;
      }
      RemainingEnd(Contents(), waiting, q);
      assert ts[i..] == [];
      ok := Process(waiting);
      Flush();
    }
  }
}
