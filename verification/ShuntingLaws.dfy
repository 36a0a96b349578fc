/** What the shunting-yard actions keep on arbitrary lexeme streams, well formed as an
    expression or not. */
module ShuntingLaws {
  import opened Prelude
  import opened Operators
  import opened ShuntingYard
  import L = ParserDfa

  // ----- The order of the operator stack -----------------------------------

  /** Between two parentheses the operators bind looser from top to bottom, and
      functions lie only above the operators. */
  ghost predicate Layered(stack: seq<Stacked>) {
    forall i, j | 0 <= i < j < |stack| && stack[i].Operator? && NoParen(stack[i..j + 1]) ::
      stack[j].Operator? && Rank(stack[i].op) < Rank(stack[j].op)
  }

  predicate NoParen(items: seq<Item>) {
    forall k | 0 <= k < |items| :: !items[k].Paren?
  }

  /** The same said of neighbours only. */
  ghost predicate Stepped(stack: seq<Stacked>) {
    forall i | 0 < i < |stack| && stack[i - 1].Operator? && !stack[i].Paren? ::
      stack[i].Operator? && Rank(stack[i - 1].op) < Rank(stack[i].op)
  }

  lemma {:induction false} SteppedIsLayered(stack: seq<Stacked>, i: nat, j: nat)
    requires Stepped(stack) && i < j < |stack| && stack[i].Operator? && NoParen(stack[i..j + 1])
    ensures stack[j].Operator? && Rank(stack[i].op) < Rank(stack[j].op)
    decreases j - i
  {
    assert stack[i..j + 1][j - i] == stack[j];
    if i + 1 < j {
      assert stack[i..j] == stack[i..j + 1][..j - i];
      SteppedIsLayered(stack, i, j - 1);
    }
  }

  lemma {:induction false} PopYieldingKeeps(s: State, op: Oper)
    requires Stepped(s.stack)
    ensures var p := PopYielding(s, op).stack;
            Stepped(p) && (p == [] || p[0].Paren? || (p[0].Operator? && Rank(op) < Rank(p[0].op)))
    decreases |s.stack|
  {
    if s.stack != [] && Yields(s.stack[0], op) {
      PopYieldingKeeps(PopToQueue(s), op);
    }
  }

  lemma {:induction false} PopToParenKeeps(s: State)
    requires Stepped(s.stack)
    ensures Stepped(PopToParen(s).stack)
    decreases |s.stack|
  {
    if s.stack != [] && !s.stack[0].Paren? {
      PopToParenKeeps(PopToQueue(s));
    }
  }

  lemma SteppedTail(stack: seq<Stacked>)
    requires Stepped(stack) && stack != []
    ensures Stepped(stack[1..])
  {
    forall i | 0 < i < |stack[1..]| && stack[1..][i - 1].Operator? && !stack[1..][i].Paren?
      ensures stack[1..][i].Operator? && Rank(stack[1..][i - 1].op) < Rank(stack[1..][i].op)
    {
      assert stack[1..][i - 1] == stack[i] && stack[1..][i] == stack[i + 1];
    }
  }

  lemma ClosedKeepsOrder(s: State)
    requires Stepped(s.stack)
    ensures Stepped(Closed(s).1.stack)
  {
    hide Stepped;
    PopToParenKeeps(s);
    var p := PopToParen(s).stack;
    if p != [] {
      SteppedTail(p);
      if p[1..] != [] {
        SteppedTail(p[1..]);
      }
    }
  }

  lemma StepKeepsOrder(s: State, a: Action)
    requires Stepped(s.stack)
    ensures Stepped(Step(s, a).1.stack)
  {
    match a
    case Operate(op) => PopYieldingKeeps(s, op);
    case Close => ClosedKeepsOrder(s);
    case Part => PopToParenKeeps(s);
    case _ =>
  }

  lemma {:induction false} PerformKeepsOrder(s: State, acts: seq<Action>)
    requires Stepped(s.stack)
    ensures Perform(s, acts).Some? ==> Layered(Perform(s, acts).value.stack)
    decreases |acts|
  {
    hide Step;
    if acts == [] {
      forall i, j | 0 <= i < j < |s.stack| && s.stack[i].Operator? && NoParen(s.stack[i..j + 1])
        ensures s.stack[j].Operator? && Rank(s.stack[i].op) < Rank(s.stack[j].op)
      {
        SteppedIsLayered(s.stack, i, j);
      }
    } else {
      StepKeepsOrder(s, acts[0]);
      PerformKeepsOrder(Step(s, acts[0]).1, acts[1..]);
    }
  }

  // ----- Nothing is lost, nothing is doubled -------------------------------

  /** What an action contributes to the program. */
  function Accepted(a: Action): seq<Item> {
    match a
    case PushNumber(n) => [Operand(IntV(n))]
    case PushValue(v) => [Operand(v)]
    case PushFunction(f) => [Call(f)]
    case Operate(op) => [Operator(op)]
    case Open | Close | Part | Skip => []
  }

  function AllAccepted(acts: seq<Action>): seq<Item> {
    if acts == [] then [] else Accepted(acts[0]) + AllAccepted(acts[1..])
  }

  function WithoutParens(stack: seq<Stacked>): seq<Item> {
    if stack == [] then []
    else (if stack[0].Paren? then [] else [stack[0]]) + WithoutParens(stack[1..])
  }

  function OperandsOf(items: seq<Item>): seq<Item> {
    if items == [] then []
    else (if items[0].Operand? then [items[0]] else []) + OperandsOf(items[1..])
  }

  lemma OperandsHead(items: seq<Item>)
    requires items != []
    ensures OperandsOf(items) == (if items[0].Operand? then [items[0]] else []) + OperandsOf(items[1..])
  {
  }

  lemma {:induction false} OperandsAppend(a: seq<Item>, b: seq<Item>)
    ensures OperandsOf(a + b) == OperandsOf(a) + OperandsOf(b)
    decreases |a|
  {
    if a == [] {
      assert a + b == b;
    } else {
      OperandsHead(a);
      OperandsHead(a + b);
      hide OperandsOf;
      assert (a + b)[1..] == a[1..] + b;
      OperandsAppend(a[1..], b);
    }
  }

  /** The items on both lists together. */
  function Holdings(s: State): multiset<Item> {
    multiset(WithoutParens(s.stack)) + multiset(s.queue)
  }

  /** `t` holds what `s` holds, with the operands queued in the same order. */
  ghost predicate SameHoldings(s: State, t: State) {
    Holdings(s) == Holdings(t) && OperandsOf(s.queue) == OperandsOf(t.queue)
  }

  lemma PopToQueueHolds(s: State)
    requires s.stack != [] && !s.stack[0].Paren?
    ensures SameHoldings(s, PopToQueue(s))
  {
    OperandsAppend(s.queue, [s.stack[0]]);
    assert OperandsOf([s.stack[0]]) == [];
    assert WithoutParens(s.stack) == [s.stack[0]] + WithoutParens(s.stack[1..]);
  }

  lemma {:induction false} PopYieldingHolds(s: State, op: Oper)
    ensures SameHoldings(s, PopYielding(s, op))
    decreases |s.stack|
  {
    if s.stack != [] && Yields(s.stack[0], op) {
      PopToQueueHolds(s);
      PopYieldingHolds(PopToQueue(s), op);
    }
  }

  lemma {:induction false} PopToParenHolds(s: State)
    ensures SameHoldings(s, PopToParen(s))
    decreases |s.stack|
  {
    if s.stack != [] && !s.stack[0].Paren? {
      PopToQueueHolds(s);
      PopToParenHolds(PopToQueue(s));
    }
  }

  lemma {:induction false} FlushedHolds(s: State)
    ensures SameHoldings(s, Flushed(s)) && Flushed(s).stack == []
    decreases |s.stack|
  {
    if s.stack != [] {
      if s.stack[0].Paren? {
        FlushedHolds(s.(stack := s.stack[1..]));
      } else {
        PopToQueueHolds(s);
        FlushedHolds(PopToQueue(s));
      }
    }
  }

  /** Every action adds exactly the item it stands for. */
  ghost predicate Gains(s: State, t: State, items: seq<Item>) {
    && Holdings(t) == Holdings(s) + multiset(items)
    && OperandsOf(t.queue) == OperandsOf(s.queue) + OperandsOf(items)
  }

  lemma StepGains(s: State, a: Action)
    ensures Gains(s, Step(s, a).1, Accepted(a))
  {
    hide Gains, SameHoldings, PopToParen, Closed, Operated;
    match a
    case PushNumber(n) => QueueGains(s, IntV(n));
    case PushValue(v) => QueueGains(s, v);
    case PushFunction(f) => PushGains(s, Call(f));
    case Operate(op) => OperatedGains(s, op);
    case Open =>
      PushParenHolds(s);
      SameGainsNothing(s, Step(s, a).1);
    case Close =>
      ClosedHolds(s);
      SameGainsNothing(s, Step(s, a).1);
    case Part =>
      PopToParenHolds(s);
      SameGainsNothing(s, Step(s, a).1);
    case Skip => GainsNothing(s);
  }

  lemma OperatedGains(s: State, op: Oper)
    ensures Gains(s, Operated(s, op), [Operator(op)])
  {
    hide Holdings, PopYielding;
    PopYieldingHolds(s, op);
    PushGains(PopYielding(s, op), Operator(op));
  }

  lemma SameGainsNothing(s: State, t: State)
    requires SameHoldings(s, t)
    ensures Gains(s, t, [])
  {
    hide Holdings;
  }

  lemma QueueGains(s: State, v: Value)
    ensures Gains(s, s.(queue := s.queue + [Operand(v)]), [Operand(v)])
  {
    OperandsAppend(s.queue, [Operand(v)]);
  }

  lemma PushGains(s: State, i: Stacked)
    requires !i.Paren?
    ensures Gains(s, s.(stack := [i] + s.stack), [i])
  {
    assert ([i] + s.stack)[1..] == s.stack;
    assert OperandsOf([i]) == [];
  }

  lemma PushParenHolds(s: State)
    ensures SameHoldings(s, s.(stack := [Paren] + s.stack))
  {
    assert ([Paren] + s.stack)[1..] == s.stack;
  }

  lemma ClosedHolds(s: State)
    ensures SameHoldings(s, Closed(s).1)
  {
    PopToParenHolds(s);
    PopToParenStops(s);
    var p := PopToParen(s);
    if p.stack != [] {
      var q := p.(stack := p.stack[1..]);
      assert WithoutParens(p.stack) == WithoutParens(q.stack);
      if q.stack != [] && q.stack[0].Call? {
        PopToQueueHolds(q);
      }
    }
  }

  lemma {:induction false} PopToParenStops(s: State)
    ensures var p := PopToParen(s).stack; p == [] || p[0].Paren?
    decreases |s.stack|
  {
    if s.stack != [] && !s.stack[0].Paren? {
      PopToParenStops(PopToQueue(s));
    }
  }

  lemma {:induction false} PerformGains(s: State, acts: seq<Action>)
    requires Perform(s, acts).Some?
    ensures Gains(s, Perform(s, acts).value, AllAccepted(acts))
    decreases |acts|
  {
    hide Step, Gains;
    if acts == [] {
      GainsNothing(s);
    } else {
      var t := Step(s, acts[0]).1;
      StepGains(s, acts[0]);
      PerformGains(t, acts[1..]);
      GainsBoth(s, t, Perform(s, acts).value, Accepted(acts[0]), AllAccepted(acts[1..]));
    }
  }

  lemma GainsNothing(s: State)
    ensures Gains(s, s, [])
  {
  }

  lemma SumAssociates(x: multiset<Item>, y: multiset<Item>, z: multiset<Item>)
    ensures x + y + z == x + (y + z)
  {
  }

  lemma GainsBoth(s: State, t: State, u: State, a: seq<Item>, b: seq<Item>)
    requires Gains(s, t, a) && Gains(t, u, b)
    ensures Gains(s, u, a + b)
  {
    hide Holdings, OperandsOf;
    OperandsAppend(a, b);
    assert multiset(a + b) == multiset(a) + multiset(b);
    SumAssociates(Holdings(s), multiset(a), multiset(b));
    assert OperandsOf(s.queue) + OperandsOf(a) + OperandsOf(b) == OperandsOf(s.queue) + (OperandsOf(a) + OperandsOf(b));
  }

  /** A compiled program holds every accepted operand, operator and function exactly
      once, the operands in the order they were written; only parentheses, commas and
      spaces are gone. */
  lemma NothingLost(ts: seq<Token>)
    requires Compiled(ts).Some?
    ensures var acts := Resolve(L.Start, ts).value;
            multiset(Compiled(ts).value) == multiset(AllAccepted(acts)) &&
            OperandsOf(Compiled(ts).value) == OperandsOf(AllAccepted(acts))
  {
    hide Resolve;
    var acts := Resolve(L.Start, ts).value;
    var s := Perform(EMPTY, acts).value;
    PerformGains(EMPTY, acts);
    FlushedHolds(s);
    assert Holdings(EMPTY) == multiset{} && Holdings(Flushed(s)) == multiset(Flushed(s).queue);
    assert OperandsOf([]) + OperandsOf(AllAccepted(acts)) == OperandsOf(AllAccepted(acts));
  }

  // ----- Which texts are accepted ------------------------------------------

  /** The parentheses and commas of an action list that starts at the given depth. A
      left parenthesis need not be closed. A right parenthesis or a comma needs an open
      one, but not when a number follows at once. */
  predicate Admissible(acts: seq<Action>, depth: nat) {
    if acts == [] then true
    else
      var numberNext := |acts| > 1 && acts[1].PushNumber?;
      match acts[0]
      case Open => Admissible(acts[1..], depth + 1)
      case Close =>
        if depth > 0 then Admissible(acts[1..], depth - 1) else numberNext && Admissible(acts[1..], 0)
      case Part => (depth > 0 || numberNext) && Admissible(acts[1..], depth)
      case _ => Admissible(acts[1..], depth)
  }

  function Depth(stack: seq<Stacked>): nat {
    if stack == [] then 0 else (if stack[0].Paren? then 1 else 0) + Depth(stack[1..])
  }

  lemma {:induction false} PopYieldingDepth(s: State, op: Oper)
    ensures Depth(PopYielding(s, op).stack) == Depth(s.stack)
    decreases |s.stack|
  {
    if s.stack != [] && Yields(s.stack[0], op) {
      PopYieldingDepth(PopToQueue(s), op);
    }
  }

  lemma {:induction false} PopToParenDepth(s: State)
    ensures Depth(PopToParen(s).stack) == Depth(s.stack)
    decreases |s.stack|
  {
    if s.stack != [] && !s.stack[0].Paren? {
      PopToParenDepth(PopToQueue(s));
    }
  }

  lemma StepDepth(s: State, a: Action)
    ensures var (ok, t) := Step(s, a);
            var d := Depth(s.stack);
            match a
            case Open => ok && Depth(t.stack) == d + 1
            case Close => (ok <==> d > 0) && Depth(t.stack) == if d > 0 then d - 1 else 0
            case Part => (ok <==> d > 0) && Depth(t.stack) == d
            case _ => ok && Depth(t.stack) == d
  {
    match a
    case PushFunction(f) => assert ([Call(f)] + s.stack)[1..] == s.stack;
    case Operate(op) =>
      PopYieldingDepth(s, op);
      assert ([Operator(op)] + PopYielding(s, op).stack)[1..] == PopYielding(s, op).stack;
    case Open => assert ([Paren] + s.stack)[1..] == s.stack;
    case Close =>
      PopToParenDepth(s);
      PopToParenStops(s);
    case Part =>
      PopToParenDepth(s);
      PopToParenStops(s);
    case _ =>
  }

  lemma {:induction false} PerformsIffAdmissible(s: State, acts: seq<Action>)
    ensures Perform(s, acts).Some? <==> Admissible(acts, Depth(s.stack))
    decreases |acts|
  {
    hide Step, Depth;
    if acts != [] {
      StepDepth(s, acts[0]);
      PerformsIffAdmissible(Step(s, acts[0]).1, acts[1..]);
    }
  }

  /** What that comes to for a text: no right parenthesis without a left one, and no comma
      outside parentheses unless a number follows at once. */
  predicate Orderly(acts: seq<Action>, depth: nat) {
    if acts == [] then true
    else
      match acts[0]
      case Open => Orderly(acts[1..], depth + 1)
      case Close => depth > 0 && Orderly(acts[1..], depth - 1)
      case Part => (depth > 0 || (|acts| > 1 && acts[1].PushNumber?)) && Orderly(acts[1..], depth)
      case _ => Orderly(acts[1..], depth)
  }

  ghost predicate NoNumberBehindClose(acts: seq<Action>) {
    forall i | 0 <= i < |acts| - 1 && acts[i].Close? :: !acts[i + 1].PushNumber?
  }

  lemma {:induction false} AdmissibleIsOrderly(acts: seq<Action>, depth: nat)
    requires NoNumberBehindClose(acts)
    ensures Admissible(acts, depth) <==> Orderly(acts, depth)
    decreases |acts|
  {
    if acts != [] {
      forall i | 0 <= i < |acts[1..]| - 1 && acts[1..][i].Close? ensures !acts[1..][i + 1].PushNumber? {
        assert acts[i + 1].Close?;
      }
      match acts[0]
      case Open => AdmissibleIsOrderly(acts[1..], depth + 1);
      case Close =>
        if depth > 0 {
          AdmissibleIsOrderly(acts[1..], depth - 1);
        }
      case _ => AdmissibleIsOrderly(acts[1..], depth);
    }
  }

  /** The table lets no number follow a right parenthesis: a space must stand between, and
      the space's handler looks at the result. */
  lemma NumberNotBehindRight(q: L.LexState, t: Token)
    requires q !in {L.CaptureString, L.Error} && After(q, Right) != L.Invalid
    ensures After(q, Right) == L.RightParen
    ensures t.Number? ==> After(L.RightParen, t) == L.Invalid
  {
  }

  /** Whole lexemes never stop inside a string. */
  lemma AfterStaysOutside(q: L.LexState, t: Token)
    requires q !in {L.CaptureString, L.Error}
    ensures After(q, t) !in {L.CaptureString, L.Error}
  {
  }

  lemma CloseIsRight(q: L.LexState, t: Token)
    ensures ActionOf(q, t).Close? ==> t == Right
  {
    hide After;
  }

  /** In what the table lets through, no number is read right behind a right parenthesis. */
  lemma {:induction false} ResolvedHasNoNumberBehindClose(q: L.LexState, ts: seq<Token>)
    requires q !in {L.CaptureString, L.Error} && Resolve(q, ts).Some?
    ensures NoNumberBehindClose(Resolve(q, ts).value)
    decreases |ts|
  {
    hide After, ActionOf, Resolve;
    if ts == [] {
      assert Resolve(q, ts).value == [] by { ResolvesEmpty(q); }
    } else {
      var next := After(q, ts[0]);
      ResolveHead(q, ts);
      AfterStaysOutside(q, ts[0]);
      ResolvedHasNoNumberBehindClose(next, ts[1..]);
      CloseIsRight(q, ts[0]);
      var acts, rest := Resolve(q, ts).value, Resolve(next, ts[1..]).value;
      if rest != [] {
        assert ts[1..] != [] by { ResolvesEmpty(next); }
        ResolveHead(next, ts[1..]);
        if ts[0] == Right {
          NumberNotBehindRight(q, ts[1]);
        }
      }
      forall i | 0 <= i < |acts| - 1 && acts[i].Close? ensures !acts[i + 1].PushNumber? {
        if i > 0 {
          assert rest[i - 1].Close?;
        }
      }
    }
  }

  lemma ResolvesEmpty(q: L.LexState)
    ensures Resolve(q, []).Some? ==> Resolve(q, []).value == []
  {
  }

  /** Exactly which lexeme streams compile: the table must have a way through, and the
      parentheses and commas must be orderly. */
  lemma CompilesIff(ts: seq<Token>)
    ensures Compiled(ts).Some? <==>
            Resolve(L.Start, ts).Some? && Orderly(Resolve(L.Start, ts).value, 0)
  {
    hide Resolve;
    if Resolve(L.Start, ts).Some? {
      PerformsIffAdmissible(EMPTY, Resolve(L.Start, ts).value);
      ResolvedHasNoNumberBehindClose(L.Start, ts);
      AdmissibleIsOrderly(Resolve(L.Start, ts).value, 0);
    }
  }

  /** A comma outside parentheses is refused before a word but accepted right before a
      number, whose handler does not look at the result of the comma. */
  lemma StrayCommaBeforeNumber(v: Value)
    ensures Compiled([Number(1), Separator, Word(v)]) == None
    ensures Compiled([Number(1), Separator, Number(2)]) == Some([Operand(IntV(1)), Operand(IntV(2))])
  {
    hide After, ActionOf, Step;
    ResolvesComma(Word(v));
    ResolvesComma(Number(2));
    PerformsComma(PushValue(v));
    PerformsComma(PushNumber(2));
    assert Flushed(State([], [Operand(IntV(1)), Operand(IntV(2))])).queue == [Operand(IntV(1)), Operand(IntV(2))];
  }

  /** Operands must not touch: behind a word no number or word is a lexeme of its own, and
      behind a number no number. */
  lemma TouchingOperandsRefused(v: Value, t: Token, more: seq<Token>)
    requires t.Word? || t.Name? || t.Number?
    ensures Compiled([Word(v), t] + more) == None
    ensures t.Number? ==> Compiled([Number(1), t] + more) == None
  {
    TouchingRefused(L.Alpha, t, more);
    if t.Number? {
      TouchingRefused(L.Digit, t, more);
    }
    OperandFirst(v);
    hide After;
    assert ([Word(v), t] + more)[1..] == [t] + more && ([Number(1), t] + more)[1..] == [t] + more;
  }

  lemma TouchingRefused(q: L.LexState, t: Token, more: seq<Token>)
    requires (q == L.Alpha && (t.Word? || t.Name? || t.Number?)) || (q == L.Digit && t.Number?)
    ensures Resolve(q, [t] + more) == None
  {
  }

  lemma OperandFirst(v: Value)
    ensures After(L.Start, Word(v)) == L.Alpha && After(L.Start, Number(1)) == L.Digit
  {
  }

  lemma ResolvesOne(q: L.LexState, t: Token, rest: seq<Token>, next: L.LexState, acts: seq<Action>)
    requires After(q, t) == next && next != L.Invalid && Resolve(next, rest) == Some(acts)
    ensures Resolve(q, [t] + rest) == Some([ActionOf(q, t)] + acts)
  {
    hide After, ActionOf;
    assert ([t] + rest)[1..] == rest;
  }

  lemma CommaStates(t: Token)
    requires t.Number? || t.Word?
    ensures After(L.Start, Number(1)) == L.Digit && After(L.Digit, Separator) == L.Comma
    ensures After(L.Comma, t) == if t.Number? then L.Digit else L.Alpha
    ensures ActionOf(L.Start, Number(1)) == PushNumber(1) && ActionOf(L.Digit, Separator) == Part
    ensures ActionOf(L.Comma, t) == if t.Number? then PushNumber(t.n) else PushValue(t.v)
  {
    hide L.NextState;
    DigitStates();
  }

  lemma DigitStates()
    ensures L.NextState(L.Start, L.ADigit) == L.Digit && L.NextState(L.Digit, L.AComma) == L.Comma
    ensures L.NextState(L.Comma, L.ADigit) == L.Digit && L.NextState(L.Comma, L.AAlpha) == L.Alpha
  {
  }

  lemma LineMayEnd(q: L.LexState)
    requires q == L.Digit || q == L.Alpha
    ensures Resolve(q, []) == Some([])
  {
  }

  lemma ResolvesComma(t: Token)
    requires t.Number? || t.Word?
    ensures Resolve(L.Start, [Number(1), Separator, t]) ==
            Some([PushNumber(1), Part, if t.Number? then PushNumber(t.n) else PushValue(t.v)])
  {
    hide After, ActionOf, Resolve;
    CommaStates(t);
    var last := if t.Number? then L.Digit else L.Alpha;
    LineMayEnd(last);
    ResolvesOne(L.Comma, t, [], last, []);
    assert [t] + [] == [t] && [ActionOf(L.Comma, t)] + [] == [ActionOf(L.Comma, t)];
    ResolvesOne(L.Digit, Separator, [t], L.Comma, [ActionOf(L.Comma, t)]);
    var x := ActionOf(L.Comma, t);
    assert [Separator] + [t] == [Separator, t] && [Part] + [x] == [Part, x];
    ResolvesOne(L.Start, Number(1), [Separator, t], L.Digit, [Part, x]);
    assert [Number(1)] + [Separator, t] == [Number(1), Separator, t];
    assert [PushNumber(1)] + [Part, x] == [PushNumber(1), Part, x];
  }

  lemma PerformsComma(a: Action)
    requires a == PushNumber(2) || a.PushValue?
    ensures Perform(EMPTY, [PushNumber(1), Part, a]) ==
            if a.PushNumber? then Some(State([], [Operand(IntV(1)), Operand(IntV(2))])) else None
  {
    var one := State([], [Operand(IntV(1))]);
    assert [] + [Operand(IntV(1))] == [Operand(IntV(1))];
    assert Step(EMPTY, PushNumber(1)) == (true, one);
    assert Step(one, Part) == (false, one);
    PerformHead(EMPTY, PushNumber(1), [Part, a]);
    assert [PushNumber(1)] + [Part, a] == [PushNumber(1), Part, a];
    PerformHead(one, Part, [a]);
    assert [Part] + [a] == [Part, a];
    PerformHead(one, a, []);
    assert [a] + [] == [a];
    assert Perform(one, [a]) == Some(Step(one, a).1);
    assert Perform(EMPTY, [PushNumber(1), Part, a]) == Perform(one, [Part, a]);
    assert Perform(one, [Part, a]) == if a.PushNumber? then Perform(one, [a]) else None;
    assert one.queue + [Operand(IntV(2))] == [Operand(IntV(1)), Operand(IntV(2))];
  }
}
