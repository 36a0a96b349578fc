/** command_parser_execute_expression and eval: the stack machine that runs a
    compiled expression, and the proof that it computes the value of the tree. */
module RpnMachine {
  import opened Prelude
  import opened Operators
  import opened ShuntingYard
  import opened ExprTree

  const MAX_ARGUMENTS: nat := 4

  /** The argument_count callbacks of operator.c. */
  function ArgumentCount(i: Item): nat {
    match i
    case Operator(op) => if op == UnaryMinus then 1 else 2
    case Call(f) => f.arity
    case Operand(_) | Paren => 0
  }

  /** The evaluation callbacks, on arguments in written order. */
  function Callback(env: Env, i: Item, args: seq<Value>): Option<Value>
    requires |args| == ArgumentCount(i)
  {
    match i
    case Operator(op) => if op == UnaryMinus then Negate(env, args[0]) else Binary(env, op, args[0], args[1])
    case Call(f) => env.call(f, args)
    case Operand(v) => Some(v)
    case Paren => None
  }

  function Reversed(vs: seq<Value>): (r: seq<Value>)
    ensures |r| == |vs|
  {
    if vs == [] then [] else Reversed(vs[1..]) + [vs[0]]
  }

  /** One cell of the program; None when eval reports failure. A NULL result pushes
      nothing and is no failure. */
  function Evaluated(env: Env, stack: seq<Value>, i: Item): Option<seq<Value>> {
    var n := ArgumentCount(i);
    if i.Operand? then Some([i.v] + stack)
    else if i.Paren? || n > |stack| || n > MAX_ARGUMENTS then None
    else
      match Callback(env, i, Reversed(stack[..n]))
      case None => Some(stack[n..])
      case Some(v) => Some([v] + stack[n..])
  }

  function Ran(env: Env, stack: seq<Value>, program: seq<Item>): Option<seq<Value>>
    decreases |program|
  {
    if program == [] then Some(stack)
    else
      match Evaluated(env, stack, program[0])
      case None => None
      case Some(next) => Ran(env, next, program[1..])
  }

  function Executed(env: Env, program: seq<Item>): Option<Value> {
    match Ran(env, [], program)
    case None => None
    case Some(stack) => if |stack| == 1 then Some(stack[0]) else None
  }

  class Machine {
    const env: Env
    var workStack: seq<Value>

    constructor (env: Env)
      ensures this.env == env && workStack == []
    {
      this.env := env;
      workStack := [];
    }

    method PopFront() returns (v: Value)
      requires workStack != []
      modifies this
      ensures v == old(workStack)[0] && workStack == old(workStack)[1..]
    {
      v := workStack[0];
      workStack := workStack[1..];
    }

    method Eval(i: Item) returns (ok: bool)
      requires !i.Operand? && !i.Paren?
      modifies this
      ensures ok == Evaluated(env, old(workStack), i).Some?
      ensures workStack == if ok then Evaluated(env, old(workStack), i).value else old(workStack)
    {
      hide Callback;
      ghost var stack := workStack;
      var argCount := ArgumentCount(i);
      if argCount <= |stack| && argCount <= MAX_ARGUMENTS {
        ReversedPrefix(stack, argCount);
      }
      var result: Option<Value> := None;
      ok := true;
      if argCount > |workStack| {
        ok := false;
      } else if argCount == 0 {
        result := Callback(env, i, []);
      } else if argCount == 1 {
        var arg1 := PopFront();
        result := Callback(env, i, [arg1]);
      } else if argCount == 2 {
        var arg1 := PopFront();
        var arg2 := PopFront();
        result := Callback(env, i, [arg2, arg1]);
      } else if argCount == 3 {
        var arg1 := PopFront();
        var arg2 := PopFront();
        var arg3 := PopFront();
        result := Callback(env, i, [arg3, arg2, arg1]);
      } else if argCount == 4 {
        var arg1 := PopFront();
        var arg2 := PopFront();
        var arg3 := PopFront();
        var arg4 := PopFront();
        result := Callback(env, i, [arg4, arg3, arg2, arg1]);
      } else {
        ok := false;
      }
      assert ok ==> workStack == stack[argCount..];
      if result.Some? {
        workStack := [result.value] + workStack;
      }
    }

    method Execute(program: seq<Item>) returns (result: Option<Value>)
      requires workStack == []
      requires forall k | 0 <= k < |program| :: !program[k].Paren?
      modifies this
      ensures result == Executed(env, program)
    {
      var ok := true;
      var i := 0;
      while i < |program| && ok
        invariant i <= |program|
        invariant Ran(env, [], program) == if ok then Ran(env, workStack, program[i..]) else None
      {
        assert program[i..][0] == program[i] && program[i..][1..] == program[i + 1..];
        if program[i].Operand? {
          workStack := [program[i].v] + workStack;
        } else {
          ok := Eval(program[i]);
        }
        i := i + 1;
      }
      assert program[|program|..] == [];
      result := None;
      if ok && |workStack| == 1 {
        result := Some(workStack[0]);
      }
    }
  }

  /** The arguments of up to four places, as eval hands them over. */
  lemma ReversedPrefix(stack: seq<Value>, n: nat)
    requires n <= |stack| && n <= MAX_ARGUMENTS
    ensures n == 0 ==> Reversed(stack[..n]) == []
    ensures n == 1 ==> Reversed(stack[..n]) == [stack[0]]
    ensures n == 2 ==> Reversed(stack[..n]) == [stack[1], stack[0]]
    ensures n == 3 ==> Reversed(stack[..n]) == [stack[2], stack[1], stack[0]]
    ensures n == 4 ==> Reversed(stack[..n]) == [stack[3], stack[2], stack[1], stack[0]]
  {
    forall k | 0 <= k < n ensures Reversed(stack[..n])[k] == stack[n - 1 - k] {
      ReversedAt(stack[..n], k);
    }
  }

  lemma {:induction false} ReversedAt(vs: seq<Value>, k: nat)
    requires k < |vs|
    ensures Reversed(vs)[k] == vs[|vs| - 1 - k]
  {
    if k < |vs| - 1 {
      ReversedAt(vs[1..], k);
    }
  }

  // ----- The reference: the value of a tree --------------------------------

  function Meaning(env: Env, e: Expr): Option<Value> {
    match e
    case Num(n) => Some(IntV(n))
    case Const(v) => Some(v)
    case Text(s) => Some(StrV(s))
    case Group(x) => Meaning(env, x)
    case Neg(x) =>
      (match Meaning(env, x)
       case None => None
       case Some(v) => Negate(env, v))
    case Bin(op, l, r) =>
      (match (Meaning(env, l), Meaning(env, r))
       case (Some(a), Some(b)) => Binary(env, op, a, b)
       case _ => None)
    case App(f, args) =>
      match Meanings(env, args)
      case None => None
      case Some(vs) => if |args| <= MAX_ARGUMENTS then env.call(f, vs) else None
  }

  function Meanings(env: Env, es: seq<Expr>): (r: Option<seq<Value>>)
    ensures r.Some? ==> |r.value| == |es|
  {
    if es == [] then Some([])
    else
      match (Meaning(env, es[0]), Meanings(env, es[1..]))
      case (Some(v), Some(vs)) => Some([v] + vs)
      case _ => None
  }

  /** Every function is given as many arguments as it takes. */
  predicate RightArity(e: Expr) {
    match e
    case Bin(_, l, r) => RightArity(l) && RightArity(r)
    case Neg(x) => RightArity(x)
    case Group(x) => RightArity(x)
    case App(f, args) => |args| == f.arity && forall i | 0 <= i < |args| :: RightArity(args[i])
    case _ => true
  }

  // ----- The machine on postorder ------------------------------------------

  /** What a program adds to the stack when nothing returns NULL. */
  function Net(program: seq<Item>): int {
    if program == [] then 0 else 1 - ArgumentCount(program[0]) + Net(program[1..])
  }

  lemma {:induction false} NetAppend(a: seq<Item>, b: seq<Item>)
    ensures Net(a + b) == Net(a) + Net(b)
    decreases |a|
  {
    if a == [] {
      assert a + b == b;
    } else {
      assert (a + b)[1..] == a[1..] + b;
      NetAppend(a[1..], b);
    }
  }

  lemma {:induction false} RanAppend(env: Env, stack: seq<Value>, a: seq<Item>, b: seq<Item>)
    ensures Ran(env, stack, a + b) ==
            match Ran(env, stack, a) case None => None case Some(next) => Ran(env, next, b)
    decreases |a|
  {
    hide Evaluated;
    if a == [] {
      assert a + b == b;
    } else {
      assert (a + b)[1..] == a[1..] + b;
      match Evaluated(env, stack, a[0]) {
        case None =>
        case Some(next) => RanAppend(env, next, a[1..], b);
      }
    }
  }

  lemma {:induction false} RanGrows(env: Env, stack: seq<Value>, program: seq<Item>)
    ensures var r := Ran(env, stack, program); r.Some? ==> |r.value| <= |stack| + Net(program)
    decreases |program|
  {
    if program != [] {
      var next := Evaluated(env, stack, program[0]);
      if next.Some? {
        RanGrows(env, next.value, program[1..]);
      }
    }
  }

  lemma {:induction false} NetOfTree(e: Expr)
    requires RightArity(e)
    ensures Net(Postorder(e)) == 1
  {
    match e {
      case Num(_) =>
      case Const(_) =>
      case Text(_) =>
      case Group(x) => NetOfTree(x);
      case Neg(x) =>
        NetOfTree(x);
        NetAppend(Postorder(x), [Operator(UnaryMinus)]);
      case Bin(op, l, r) =>
        NetOfTree(l);
        NetOfTree(r);
        NetAppend(Postorder(l), Postorder(r));
        NetAppend(Postorder(l) + Postorder(r), [Operator(op)]);
      case App(f, args) =>
        NetOfTrees(args);
        NetAppend(Postorders(args), [Call(f)]);
    }
  }

  lemma {:induction false} NetOfTrees(es: seq<Expr>)
    requires forall i | 0 <= i < |es| :: RightArity(es[i])
    ensures Net(Postorders(es)) == |es|
  {
    if es != [] {
      NetOfTree(es[0]);
      NetOfTrees(es[1..]);
      NetAppend(Postorder(es[0]), Postorders(es[1..]));
    }
  }

  /** Running a subtree pushes its value; when it has none, the stack ends up short by
      at least one for good. */
  ghost predicate Lands(r: Option<seq<Value>>, stack: seq<Value>, m: Option<Value>) {
    match m
    case Some(v) => r == Some([v] + stack)
    case None => r.Some? ==> |r.value| <= |stack|
  }

  /** The same for the arguments of an operator: `n` values, the last on top. */
  ghost predicate Loads(r: Option<seq<Value>>, stack: seq<Value>, m: Option<seq<Value>>, n: nat) {
    match m
    case Some(args) => |args| == n && r == Some(Reversed(args) + stack)
    case None => r.Some? ==> |r.value| < |stack| + n
  }

  function Single(m: Option<Value>): Option<seq<Value>> {
    match m case None => None case Some(v) => Some([v])
  }

  function Join(m: Option<Value>, rest: Option<seq<Value>>): Option<seq<Value>> {
    match (m, rest) case (Some(v), Some(vs)) => Some([v] + vs) case _ => None
  }

  lemma LoadsSingle(r: Option<seq<Value>>, stack: seq<Value>, m: Option<Value>)
    requires Lands(r, stack, m)
    ensures Loads(r, stack, Single(m), 1)
  {
    if m.Some? {
      assert [m.value][1..] == [];
      assert Reversed([m.value]) == [m.value];
    }
  }

  lemma LoadsJoin(env: Env, stack: seq<Value>, a: seq<Item>, m: Option<Value>, b: seq<Item>, rest: Option<seq<Value>>, n: nat)
    requires Lands(Ran(env, stack, a), stack, m) && Net(b) == n
    requires m.Some? ==> Loads(Ran(env, [m.value] + stack, b), [m.value] + stack, rest, n)
    ensures Loads(Ran(env, stack, a + b), stack, Join(m, rest), n + 1)
  {
    RanAppend(env, stack, a, b);
    if m.Some? {
      if rest.Some? {
        assert ([m.value] + rest.value)[1..] == rest.value;
        assert Reversed(rest.value) + ([m.value] + stack) == Reversed([m.value] + rest.value) + stack;
      }
    } else if Ran(env, stack, a).Some? {
      RanGrows(env, Ran(env, stack, a).value, b);
    }
  }

  lemma RunsOperator(env: Env, stack: seq<Value>, code: seq<Item>, i: Item, m: Option<seq<Value>>)
    requires !i.Operand? && !i.Paren? && Net(code) == ArgumentCount(i)
    requires Loads(Ran(env, stack, code), stack, m, ArgumentCount(i))
    ensures Lands(Ran(env, stack, code + [i]), stack,
                  if m.Some? && |m.value| <= MAX_ARGUMENTS then Callback(env, i, m.value) else None)
  {
    hide Callback;
    var n := ArgumentCount(i);
    RanAppend(env, stack, code, [i]);
    var loaded := Ran(env, stack, code);
    if loaded.Some? {
      RanOne(env, loaded.value, i);
      if m.Some? {
        assert loaded.value[..n] == Reversed(m.value) && loaded.value[n..] == stack;
        ReversedTwice(m.value);
      }
    }
  }

  lemma RanOne(env: Env, stack: seq<Value>, i: Item)
    ensures Ran(env, stack, [i]) == Evaluated(env, stack, i)
  {
    hide Evaluated;
    assert [i][1..] == [];
    if Evaluated(env, stack, i).Some? {
      assert Ran(env, Evaluated(env, stack, i).value, []) == Evaluated(env, stack, i);
    }
  }

  lemma ReversedTwice(vs: seq<Value>)
    ensures Reversed(Reversed(vs)) == vs
  {
    forall k | 0 <= k < |vs| ensures Reversed(Reversed(vs))[k] == vs[k] {
      ReversedAt(Reversed(vs), k);
      ReversedAt(vs, |vs| - 1 - k);
    }
  }

  lemma {:induction false} RunsTree(env: Env, e: Expr, stack: seq<Value>)
    requires RightArity(e)
    ensures Lands(Ran(env, stack, Postorder(e)), stack, Meaning(env, e))
    decreases e
  {
    hide Ran, Net, Callback, Lands, Loads;
    match e {
      case Num(n) => RunsLeaf(env, e, stack);
      case Const(v) => RunsLeaf(env, e, stack);
      case Text(s) => RunsLeaf(env, e, stack);
      case Group(x) => RunsTree(env, x, stack);
      case Neg(x) =>
        NetOfTree(x);
        RunsTree(env, x, stack);
        LoadsSingle(Ran(env, stack, Postorder(x)), stack, Meaning(env, x));
        RunsOperator(env, stack, Postorder(x), Operator(UnaryMinus), Single(Meaning(env, x)));
        NegMeaning(env, x);
      case Bin(op, l, r) =>
        var m := Meaning(env, l);
        NetOfTree(l);
        NetOfTree(r);
        NetAppend(Postorder(l), Postorder(r));
        RunsTree(env, l, stack);
        if m.Some? {
          RunsTree(env, r, [m.value] + stack);
          LoadsSingle(Ran(env, [m.value] + stack, Postorder(r)), [m.value] + stack, Meaning(env, r));
        }
        var both := Join(m, Single(Meaning(env, r)));
        LoadsJoin(env, stack, Postorder(l), m, Postorder(r), Single(Meaning(env, r)), 1);
        RunsOperator(env, stack, Postorder(l) + Postorder(r), Operator(op), both);
        BinMeaning(env, op, l, r);
      case App(f, args) =>
        NetOfTrees(args);
        RunsTrees(env, args, stack);
        RunsOperator(env, stack, Postorders(args), Call(f), Meanings(env, args));
        AppMeaning(env, f, args);
    }
  }

  lemma {:induction false} RunsTrees(env: Env, es: seq<Expr>, stack: seq<Value>)
    requires forall i | 0 <= i < |es| :: RightArity(es[i])
    ensures Loads(Ran(env, stack, Postorders(es)), stack, Meanings(env, es), |es|)
    decreases es
  {
    if es == [] {
      assert Reversed([]) + stack == stack;
    } else {
      var m := Meaning(env, es[0]);
      RunsTree(env, es[0], stack);
      NetOfTrees(es[1..]);
      if m.Some? {
        RunsTrees(env, es[1..], [m.value] + stack);
      }
      LoadsJoin(env, stack, Postorder(es[0]), m, Postorders(es[1..]), Meanings(env, es[1..]), |es| - 1);
    }
  }

  lemma RunsLeaf(env: Env, e: Expr, stack: seq<Value>)
    requires e.Num? || e.Const? || e.Text?
    ensures Lands(Ran(env, stack, Postorder(e)), stack, Meaning(env, e))
  {
    RanOne(env, stack, Postorder(e)[0]);
    assert Postorder(e) == [Postorder(e)[0]];
  }

  lemma NegMeaning(env: Env, x: Expr)
    ensures var m := Single(Meaning(env, x));
            Meaning(env, Neg(x)) == if m.Some? then Callback(env, Operator(UnaryMinus), m.value) else None
  {
  }

  lemma BinMeaning(env: Env, op: BinaryOp, l: Expr, r: Expr)
    ensures var m := Join(Meaning(env, l), Single(Meaning(env, r)));
            m.Some? ==> |m.value| == 2
    ensures var m := Join(Meaning(env, l), Single(Meaning(env, r)));
            Meaning(env, Bin(op, l, r)) == if m.Some? then Callback(env, Operator(op), m.value) else None
  {
    hide Binary;
  }

  lemma AppMeaning(env: Env, f: Function, args: seq<Expr>)
    requires |args| == f.arity
    ensures var m := Meanings(env, args);
            Meaning(env, App(f, args)) ==
            if m.Some? && |m.value| <= MAX_ARGUMENTS then Callback(env, Call(f), m.value) else None
  {
  }

  /** Executing the postorder of a tree gives the value of the tree, and reports an
      error exactly when the tree has none. */
  lemma ExecutesTree(env: Env, e: Expr)
    requires RightArity(e)
    ensures Executed(env, Postorder(e)) == Meaning(env, e)
  {
    RunsTree(env, e, []);
  }

  /** From text to value: compiling what was written for a tree and executing the
      result evaluates the tree. */
  lemma CompileThenExecute(env: Env, e: Expr)
    requires RightArity(e)
    ensures Compiled(Written(e)).Some? && Executed(env, Compiled(Written(e)).value) == Meaning(env, e)
  {
    WrittenCompiles(e);
    ExecutesTree(env, e);
  }
}
