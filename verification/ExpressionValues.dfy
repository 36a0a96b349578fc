/** What the operators compute, said about written expressions and their values. */
module ExpressionValues {
  import opened Prelude
  import opened Operators
  import opened ShuntingYard
  import opened ExprTree
  import opened RpnMachine

  const TWO_31: int := 0x8000_0000

  /** The value of a lexeme list: what compiling and executing it gives. */
  function ValueOf(env: Env, ts: seq<Token>): Option<Value> {
    match Compiled(ts)
    case None => None
    case Some(program) => Executed(env, program)
  }

  /** The texts of the smallest expressions. */
  lemma WrittenPair(op: BinaryOp, a: Expr, b: Expr)
    requires (a.Num? || a.Const?) && (b.Num? || b.Const?)
    ensures Written(Bin(op, a, b)) == Render(a, Rank(op), false) + [Glyph(op)] + Render(b, Rank(op) - 1, false)
  {
    hide Render;
    WrittenBody(Bin(op, a, b));
    BodyOfPair(op, a, b);
  }

  lemma WrittenBody(e: Expr)
    requires e.Bin?
    ensures Written(e) == Body(e, false)
  {
    hide Body;
    assert Fits(e, LOOSEST, false);
  }

  lemma BodyOfPair(op: BinaryOp, a: Expr, b: Expr)
    ensures Body(Bin(op, a, b), false) == Render(a, Rank(op), false) + [Glyph(op)] + Render(b, Rank(op) - 1, false)
  {
  }

  lemma PairValue(env: Env, op: BinaryOp, a: Expr, b: Expr)
    requires (a.Num? || a.Const?) && (b.Num? || b.Const?)
    ensures Meaning(env, a).Some? && Meaning(env, b).Some?
    ensures ValueOf(env, Render(a, Rank(op), false) + [Glyph(op)] + Render(b, Rank(op) - 1, false)) ==
            Binary(env, op, Meaning(env, a).value, Meaning(env, b).value)
  {
    hide Compiled, Executed, Binary;
    WrittenPair(op, a, b);
    CompileThenExecute(env, Bin(op, a, b));
  }

  /** a - b, for any two written numbers. */
  lemma DifferenceOfLiterals(env: Env, a: Literal, b: Literal)
    ensures ValueOf(env, [Number(a), Dash, Number(b)]) == Some(IntV(a - b))
  {
    hide ValueOf;
    PairValue(env, Minus, Num(a), Num(b));
    assert [Number(a)] + [Dash] + [Number(b)] == [Number(a), Dash, Number(b)];
  }

  /** a + b, which wraps when it leaves the 32 bits. */
  lemma SumOfLiterals(env: Env, a: Literal, b: Literal)
    ensures ValueOf(env, [Number(a), Symbol(Plus), Number(b)]) ==
            Some(IntV(if a + b < TWO_31 then a + b else a + b - 2 * TWO_31))
  {
    hide ValueOf;
    PairValue(env, Plus, Num(a), Num(b));
    assert [Number(a)] + [Symbol(Plus)] + [Number(b)] == [Number(a), Symbol(Plus), Number(b)];
  }

  /** (-n) */
  lemma NegatedLiteral(env: Env, n: Literal)
    ensures ValueOf(env, [Left, Dash, Number(n), Right]) == Some(IntV(0 - n))
  {
    hide Compiled, Executed;
    var e := Neg(Num(n));
    CompileThenExecute(env, e);
    assert Body(e, true) == [Dash] + [Number(n)];
    assert !Fits(e, LOOSEST, false);
    assert Written(e) == Enclosed(e) == [Left] + Body(e, true) + [Right];
    assert Written(e) == [Left, Dash, Number(n), Right];
  }

  /** a < b, a > b and a == b on written numbers. */
  lemma ComparedLiterals(env: Env, a: Literal, b: Literal)
    ensures ValueOf(env, [Number(a), Symbol(Less), Number(b)]) == Some(BoolV(a < b))
    ensures ValueOf(env, [Number(a), Symbol(More), Number(b)]) == Some(BoolV(a > b))
    ensures ValueOf(env, [Number(a), Symbol(Cmp), Number(b)]) == Some(BoolV(a == b))
  {
    hide ValueOf;
    PairValue(env, Less, Num(a), Num(b));
    PairValue(env, More, Num(a), Num(b));
    PairValue(env, Cmp, Num(a), Num(b));
    assert [Number(a)] + [Symbol(Less)] + [Number(b)] == [Number(a), Symbol(Less), Number(b)];
    assert [Number(a)] + [Symbol(More)] + [Number(b)] == [Number(a), Symbol(More), Number(b)];
    assert [Number(a)] + [Symbol(Cmp)] + [Number(b)] == [Number(a), Symbol(Cmp), Number(b)];
  }

  /** Conjunction and disjunction of two truth values. */
  lemma JoinedTruths(env: Env, p: bool, q: bool)
    ensures ValueOf(env, [Word(BoolV(p)), Symbol(And), Word(BoolV(q))]) == Some(BoolV(p && q))
    ensures ValueOf(env, [Word(BoolV(p)), Symbol(Or), Word(BoolV(q))]) == Some(BoolV(p || q))
  {
    hide ValueOf;
    var a, b := Const(BoolV(p)), Const(BoolV(q));
    PairValue(env, And, a, b);
    PairValue(env, Or, a, b);
    assert [Word(BoolV(p))] + [Symbol(And)] + [Word(BoolV(q))] == [Word(BoolV(p)), Symbol(And), Word(BoolV(q))];
    assert [Word(BoolV(p))] + [Symbol(Or)] + [Word(BoolV(q))] == [Word(BoolV(p)), Symbol(Or), Word(BoolV(q))];
  }

  // ----- On values of any origin -------------------------------------------

  /** What is stored is the 32-bit number that differs by a multiple of 2^32. */
  predicate Stores(r: Option<Value>, n: int) {
    r.Some? && r.value.IntV? && -TWO_31 <= r.value.n < TWO_31 && (r.value.n - n) % (2 * TWO_31) == 0
  }

  lemma IntegerLaws(env: Env, m: int, n: int)
    ensures Stores(Binary(env, Plus, IntV(m), IntV(n)), m + n)
    ensures Stores(Binary(env, Minus, IntV(m), IntV(n)), m - n)
    ensures Stores(Negate(env, IntV(n)), -n)
  {
    hide Wrap32;
    WrapStores(m + n);
    WrapStores(m - n);
    WrapStores(-n);
  }

  lemma WrapStores(n: int)
    ensures Stores(Some(IntV(Wrap32(n))), n)
  {
    var q := (n + TWO_31) / (2 * TWO_31);
    assert Wrap32(n) - n == 2 * TWO_31 * (0 - q);
  }

  lemma IntegersCompared(env: Env, m: int, n: int)
    ensures Binary(env, Less, IntV(m), IntV(n)) == Some(BoolV(m < n))
    ensures Binary(env, More, IntV(m), IntV(n)) == Some(BoolV(m > n))
    ensures Binary(env, Cmp, IntV(m), IntV(n)) == Some(BoolV(m == n))
  {
  }

  /** Plus with a text on either side joins the printed operands, left one first. */
  lemma JoinedTexts(env: Env, a: Value, b: Value, s: string, t: string)
    requires (a.StrV? || b.StrV?) && env.toText(a) == Some(s) && env.toText(b) == Some(t)
    ensures Binary(env, Plus, a, b) == Some(StrV(s + t))
  {
  }

  /** An integer or a text is less than anything of another type and equal to nothing of it. */
  lemma MixedComparison(env: Env, a: Value, b: Value)
    requires (a.IntV? && !b.IntV?) || (a.StrV? && !b.StrV?)
    ensures Binary(env, Less, a, b) == Some(BoolV(true))
    ensures Binary(env, Cmp, a, b) == Some(BoolV(false)) && Binary(env, More, a, b) == Some(BoolV(false))
  {
  }

  /** Only integers are subtracted, and only integers and texts added. */
  lemma NothingElseAdds(env: Env, a: Value, b: Value)
    ensures !a.IntV? ==> Binary(env, Minus, a, b) == None
    ensures a.BoolV? && !b.StrV? ==> Binary(env, Plus, a, b) == None
  {
  }

  /** Texts are ordered by the first place where they differ, and a beginning comes before
      what it begins. */
  lemma {:induction false} TextOrder(env: Env, p: string, x: char, u: string, y: char, v: string)
    ensures x < y ==> Binary(env, Less, StrV(p + [x] + u), StrV(p + [y] + v)) == Some(BoolV(true))
    ensures Binary(env, Less, StrV(p), StrV(p + [x] + u)) == Some(BoolV(true))
    ensures x < y ==> Binary(env, More, StrV(p + [y] + v), StrV(p + [x] + u)) == Some(BoolV(true))
    decreases |p|
  {
    var s, t := p + [x] + u, p + [y] + v;
    if p != [] {
      TextOrder(env, p[1..], x, u, y, v);
      assert s[1..] == p[1..] + [x] + u && t[1..] == p[1..] + [y] + v;
    } else {
      assert s == [x] + u && t == [y] + v;
    }
  }

  /** The truth of two booleans. */
  lemma TruthLaws(env: Env, p: bool, q: bool)
    ensures Binary(env, And, BoolV(p), BoolV(q)) == Some(BoolV(p && q))
    ensures Binary(env, Or, BoolV(p), BoolV(q)) == Some(BoolV(p || q))
    ensures Binary(env, Cmp, BoolV(p), BoolV(q)) == Some(BoolV(p == q))
    ensures Binary(env, More, BoolV(p), BoolV(q)) == Some(BoolV(p != q))
    ensures Binary(env, Less, BoolV(p), BoolV(q)) == Some(BoolV(false))
  {
  }

  /** The order of the enum, tightest first. */
  const ENUM_ORDER: seq<OpType> :=
    [DeviceFunction, ServiceMethod, LeftParenthesis, RightParenthesis, UnaryMinus, Minus, Plus, Less, More, Cmp, And, Or]

  lemma RankIsPlace(i: nat)
    requires i < |ENUM_ORDER|
    ensures Rank(ENUM_ORDER[i]) == i
  {
  }

  /** The value of an argument list is the list of the arguments' values. */
  lemma {:induction false} MeaningsAre(env: Env, es: seq<Expr>)
    ensures match Meanings(env, es)
            case Some(vs) => |vs| == |es| && forall k | 0 <= k < |es| :: Meaning(env, es[k]) == Some(vs[k])
            case None => exists k :: 0 <= k < |es| && Meaning(env, es[k]) == None
  {
    hide Meaning;
    if es != [] {
      MeaningsAre(env, es[1..]);
      if Meaning(env, es[0]).Some? && Meanings(env, es[1..]).None? {
        var k :| 0 <= k < |es| - 1 && Meaning(env, es[1..][k]) == None;
        assert Meaning(env, es[k + 1]) == None;
      }
    }
  }
}
