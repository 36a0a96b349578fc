/** operator.h and operator.c: the operator kinds in their enum order and what
    each evaluator does to its arguments. */
module Operators {
  import opened Prelude

  /** The constructors stand in the order of the enum, which is also the order of
      binding: a later operator binds looser. */
  datatype OpType =
    | DeviceFunction | ServiceMethod | LeftParenthesis | RightParenthesis
    | UnaryMinus | Minus | Plus | Less | More | Cmp | And | Or

  function Rank(op: OpType): nat {
    match op
    case DeviceFunction => 0
    case ServiceMethod => 1
    case LeftParenthesis => 2
    case RightParenthesis => 3
    case UnaryMinus => 4
    case Minus => 5
    case Plus => 6
    case Less => 7
    case More => 8
    case Cmp => 9
    case And => 10
    case Or => 11
  }

  const UNARY_RANK: nat := 4
  const LOOSEST: nat := 11

  /** What process_operator_token is called with. */
  type Oper = op: OpType | Rank(op) >= UNARY_RANK witness Minus

  /** The operators written between two operands. */
  type BinaryOp = op: OpType | Rank(op) > UNARY_RANK witness Minus

  /** A written number small enough for the int32_t it is kept in. */
  type Literal = n: nat | n < 0x8000_0000

  /** The operators that have a lexeme of their own; minus shares the dash. */
  type SymbolOp = op: BinaryOp | op != Minus witness Plus

  /** The values of the language. */
  datatype Value = IntV(n: int) | BoolV(b: bool) | StrV(s: string)

  /** A resolved device function or service method with its argument count. */
  datatype Function = Function(name: string, isService: bool, arity: nat)

  /** What is visible of the rest of the program: the callbacks behind functions, how
      a value is printed, and what reading the wrong union member gives. */
  datatype Env = Env(
    call: (Function, seq<Value>) -> Option<Value>,
    toText: Value -> Option<string>,
    asBool: Value -> bool,
    mixedOrder: (Value, Value) -> int,
    mixedInt: Value -> int)

  /** The value kept in an int32_t. */
  function Wrap32(n: int): (r: int)
    ensures -0x8000_0000 <= r < 0x8000_0000
  {
    (n + 0x8000_0000) % 0x1_0000_0000 - 0x8000_0000
  }

  /** The sign of strcmp. */
  function StrCmp(s: string, t: string): int {
    if s == [] && t == [] then 0
    else if s == [] then -1
    else if t == [] then 1
    else if s[0] != t[0] then (if s[0] < t[0] then -1 else 1)
    else StrCmp(s[1..], t[1..])
  }

  /** variant_compare through the comparison callback of the first argument. */
  function Compare(env: Env, a: Value, b: Value): int {
    match a
    case IntV(m) => (match b case IntV(n) => (if m < n then -1 else if m > n then 1 else 0) case _ => -1)
    case StrV(s) => (match b case StrV(t) => StrCmp(s, t) case _ => -1)
    case BoolV(p) => (match b case BoolV(q) => (if p == q then 0 else 1) case _ => env.mixedOrder(a, b))
  }

  function Truth(env: Env, a: Value): bool {
    if a.BoolV? then a.b else env.asBool(a)
  }

  function IntOf(env: Env, a: Value): int {
    if a.IntV? then a.n else env.mixedInt(a)
  }

  /** variant_add: text is joined when either side is text; only integers are added. */
  function Add(env: Env, a: Value, b: Value): Option<Value> {
    if a.StrV? || b.StrV? then
      match (env.toText(a), env.toText(b))
      case (Some(s), Some(t)) => Some(StrV(s + t))
      case _ => None
    else if a.IntV? then Some(IntV(Wrap32(a.n + IntOf(env, b))))
    else None
  }

  /** variant_subtract: the type of the first argument decides. */
  function Subtract(env: Env, a: Value, b: Value): Option<Value> {
    if a.IntV? then Some(IntV(Wrap32(a.n - IntOf(env, b)))) else None
  }

  /** The evaluators of the binary operators; None is a NULL result. */
  function Binary(env: Env, op: BinaryOp, a: Value, b: Value): Option<Value> {
    match op
    case Minus => Subtract(env, a, b)
    case Plus => Add(env, a, b)
    case Less => Some(BoolV(Compare(env, a, b) < 0))
    case More => Some(BoolV(Compare(env, a, b) > 0))
    case Cmp => Some(BoolV(Compare(env, a, b) == 0))
    case And => Some(BoolV(Truth(env, a) && Truth(env, b)))
    case Or => Some(BoolV(Truth(env, a) || Truth(env, b)))
  }

  /** op_unary_minus subtracts from an integer zero. */
  function Negate(env: Env, a: Value): Option<Value> {
    Subtract(env, IntV(0), a)
  }

  lemma {:induction false} StrCmpMirror(s: string, t: string)
    ensures StrCmp(s, t) == -StrCmp(t, s)
    ensures StrCmp(s, t) == 0 <==> s == t
  {
    if s != [] && t != [] && s[0] == t[0] {
      StrCmpMirror(s[1..], t[1..]);
      assert s == [s[0]] + s[1..] && t == [t[0]] + t[1..];
    }
  }

  /** On two integers or two strings exactly one of <, == and > holds and < is >
      turned round; on two booleans < never holds. */
  lemma ComparisonLaws(env: Env, a: Value, b: Value)
    requires (a.IntV? && b.IntV?) || (a.StrV? && b.StrV?) || (a.BoolV? && b.BoolV?)
    ensures Binary(env, Cmp, a, b) == Some(BoolV(a == b))
    ensures !a.BoolV? ==> Binary(env, Less, a, b) == Binary(env, More, b, a)
    ensures !a.BoolV? ==> (Binary(env, Less, a, b) == Some(BoolV(false)) && Binary(env, More, a, b) == Some(BoolV(false))
                           <==> a == b)
    ensures a.BoolV? ==> Binary(env, Less, a, b) == Some(BoolV(false))
  {
    if a.StrV? {
      StrCmpMirror(a.s, b.s);
    }
  }
}
