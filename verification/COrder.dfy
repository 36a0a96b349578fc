/** Texts written for the operator order of C, and how the enum order reads them. In C
    plus and minus share a level, and so do < and >. */
module COrder {
  import opened Prelude
  import opened Operators
  import opened ShuntingYard
  import opened ExprTree

  /** The levels of C, each named by the loosest of its operators in the enum. */
  function CRank(op: OpType): nat {
    match op
    case Minus => Rank(Plus)
    case Less => Rank(More)
    case _ => Rank(op)
  }

  /** The levels of C among these operators, tightest first: unary minus, plus and minus,
      < and >, ==, &&, ||. */
  const C_LEVELS: seq<set<OpType>> := [{UnaryMinus}, {Plus, Minus}, {Less, More}, {Cmp}, {And}, {Or}]

  lemma LevelsOfC(i: nat, j: nat, a: OpType, b: OpType)
    requires i < |C_LEVELS| && j < |C_LEVELS| && a in C_LEVELS[i] && b in C_LEVELS[j]
    ensures CRank(a) < CRank(b) <==> i < j
    ensures CRank(a) == CRank(b) <==> i == j
  {
  }

  // ----- Writing for C -----------------------------------------------------

  predicate CFits(e: Expr, limit: nat, head: bool) {
    match e
    case Bin(op, _, _) => CRank(op) <= limit
    case Neg(_) => head
    case _ => true
  }

  function CRender(e: Expr, limit: nat, head: bool): seq<Token>
    decreases e, 1
  {
    if CFits(e, limit, head) then CBody(e, head) else CEnclosed(e)
  }

  function CEnclosed(e: Expr): seq<Token>
    decreases e, 0, 1
  {
    [Left] + CBody(e, true) + [Right]
  }

  function CBody(e: Expr, head: bool): seq<Token>
    decreases e, 0, 0
  {
    match e
    case Num(n) => [Number(n)]
    case Const(v) => [Word(v)]
    case Text(s) => [Space, Quoted(s)]
    case Bin(op, l, r) => CRender(l, CRank(op), head) + [Glyph(op)] + CRender(r, CRank(op) - 1, false)
    case Neg(x) => [Dash] + (if x.Num? then [Number(x.n)] else CEnclosed(x))
    case App(f, args) => [Name(f), Left] + CRenderArgs(args, true) + [Right]
    case Group(x) => CEnclosed(x)
  }

  function CRenderArgs(es: seq<Expr>, head: bool): seq<Token>
    decreases es, 2
  {
    if es == [] then []
    else if |es| == 1 then CRender(es[0], LOOSEST, head)
    else CRender(es[0], LOOSEST, head) + [Separator] + CRenderArgs(es[1..], false)
  }

  /** The text of an expression, with the parentheses that C needs and no others. */
  function CWritten(e: Expr): seq<Token> {
    CRender(e, LOOSEST, false)
  }

  // ----- Reading by the enum order -----------------------------------------

  /** An operator behind an operand: it takes what binds no looser than itself at the right
      end of the operand, and the looser operators there take it. */
  function Attach(op: BinaryOp, t: Expr, r: Expr): Expr {
    match t
    case Bin(o, tl, tr) => if Rank(o) > Rank(op) then Bin(o, tl, Attach(op, tr, r)) else Bin(op, t, r)
    case _ => Bin(op, t, r)
  }

  /** The tree that the enum order sees in the text of an operand; a group stands for a
      pair of parentheses in the text. */
  function Reading(e: Expr, limit: nat, head: bool): Expr
    decreases e, 1
  {
    if CFits(e, limit, head) then ReadBody(e, head) else Group(ReadBody(e, true))
  }

  function ReadBody(e: Expr, head: bool): Expr
    decreases e, 0
  {
    match e
    case Bin(op, l, r) => Attach(op, Reading(l, CRank(op), head), Reading(r, CRank(op) - 1, false))
    case Neg(x) => Neg(if x.Num? then x else ReadBody(x, true))
    case App(f, args) => App(f, ReadArgs(args, true))
    case Group(x) => Group(ReadBody(x, true))
    case _ => e
  }

  function ReadArgs(es: seq<Expr>, head: bool): (ts: seq<Expr>)
    ensures |ts| == |es|
    decreases es, 2
  {
    if es == [] then [] else [Reading(es[0], LOOSEST, head)] + ReadArgs(es[1..], false)
  }

  function Read(e: Expr): Expr {
    Reading(e, LOOSEST, false)
  }

  // ----- The text of what is read ------------------------------------------

  /** Down the right side of a tree no operand needs parentheses of its own. */
  predicate Spine(t: Expr) {
    t.Bin? ==> Fits(t.r, Rank(t.op) - 1, false) && Spine(t.r)
  }

  lemma AttachRoot(op: BinaryOp, t: Expr, r: Expr)
    ensures var a := Attach(op, t, r);
            a.Bin? && a.op == if t.Bin? && Rank(t.op) > Rank(op) then t.op else op
  {
  }

  lemma {:induction false} AttachSpine(op: BinaryOp, t: Expr, r: Expr)
    requires Spine(t) && Spine(r) && Fits(r, Rank(op) - 1, false)
    ensures Spine(Attach(op, t, r))
    decreases t
  {
    if t.Bin? && Rank(t.op) > Rank(op) {
      AttachSpine(op, t.r, r);
      AttachRoot(op, t.r, r);
    }
  }

  lemma BodyOfBin(op: BinaryOp, l: Expr, r: Expr, head: bool)
    ensures Body(Bin(op, l, r), head) == Render(l, Rank(op), head) + [Glyph(op)] + Render(r, Rank(op) - 1, false)
  {
  }

  /** Attaching an operator only puts its text behind. */
  lemma {:induction false} AttachText(op: BinaryOp, t: Expr, r: Expr, head: bool)
    requires Spine(t) && Fits(t, LOOSEST, head)
    ensures Body(Attach(op, t, r), head) == Body(t, head) + [Glyph(op)] + Render(r, Rank(op) - 1, false)
    decreases t
  {
    hide Body;
    var tail := [Glyph(op)] + Render(r, Rank(op) - 1, false);
    if t.Bin? && Rank(t.op) > Rank(op) {
      var inner := Attach(op, t.r, r);
      AttachText(op, t.r, r, false);
      AttachRoot(op, t.r, r);
      BodyOfBin(t.op, t.l, inner, head);
      BodyOfBin(t.op, t.l, t.r, head);
      JoinFour(Render(t.l, Rank(t.op), head), [Glyph(t.op)], Body(t.r, false), tail);
      assert Body(inner, false) == Body(t.r, false) + tail;
    } else {
      BodyOfBin(op, t, r, head);
    }
    assert Body(t, head) + tail == Body(t, head) + [Glyph(op)] + Render(r, Rank(op) - 1, false);
  }

  lemma JoinFour(a: seq<Token>, b: seq<Token>, c: seq<Token>, d: seq<Token>)
    ensures a + b + (c + d) == a + b + c + d
  {
  }

  /** The tree that is read for an operand: its text is the operand's text, it needs no
      parentheses, and its operator is of the levels that the place allows. */
  ghost predicate ReadsAs(t: Expr, text: seq<Token>, limit: nat, head: bool) {
    && Fits(t, LOOSEST, head) && Spine(t) && Body(t, head) == text
    && (t.Bin? ==> CRank(t.op) <= limit)
  }

  lemma RanksAgree(a: BinaryOp, b: BinaryOp)
    ensures CRank(a) <= CRank(b) - 1 ==> Rank(a) <= Rank(b) - 1
    ensures CRank(a) <= CRank(b) && Rank(a) > Rank(b) <==> (a == Plus && b == Minus) || (a == More && b == Less)
    ensures UNARY_RANK < Rank(a) <= CRank(a) <= LOOSEST
  {
  }

  lemma {:induction false} ReadingText(e: Expr, limit: nat, head: bool)
    requires limit <= LOOSEST
    ensures ReadsAs(Reading(e, limit, head), CRender(e, limit, head), limit, head)
    decreases e, 2
  {
    hide Body, CBody, ReadBody, Spine;
    if CFits(e, limit, head) {
      ReadBodyText(e, head);
      FitsAnywhere(ReadBody(e, head), head);
    } else {
      ReadBodyText(e, true);
      GroupText(ReadBody(e, true), CBody(e, true), limit, head);
    }
  }

  lemma FitsAnywhere(t: Expr, head: bool)
    ensures Fits(t, LOOSEST, head) <==> !t.Neg? || head
  {
  }

  lemma GroupText(x: Expr, text: seq<Token>, limit: nat, head: bool)
    requires Body(x, true) == text
    ensures ReadsAs(Group(x), [Left] + text + [Right], limit, head)
  {
  }

  /** The kind of tree that is read, and its operator's level, are those of the operand. */
  ghost predicate SameKind(t: Expr, e: Expr) {
    && (t.Bin? <==> e.Bin?) && (t.Neg? <==> e.Neg?) && (t.Num? <==> e.Num?)
    && (e.Bin? ==> CRank(t.op) <= CRank(e.op))
  }

  lemma {:induction false} ReadBodyText(e: Expr, head: bool)
    ensures var t := ReadBody(e, head);
            SameKind(t, e) && Spine(t) && Body(t, head) == CBody(e, head)
    decreases e, 1
  {
    match e {
      case Num(_) | Const(_) | Text(_) =>
      case Bin(op, l, r) => ReadBinText(e, head);
      case Neg(x) => ReadBodyText(x, true);
      case App(f, args) => ReadArgsText(args, true);
      case Group(x) => ReadBodyText(x, true);
    }
  }

  lemma {:induction false} ReadBinText(e: Expr, head: bool)
    requires e.Bin?
    ensures var t := ReadBody(e, head);
            SameKind(t, e) && Spine(t) && Body(t, head) == CBody(e, head)
    decreases e, 0
  {
    hide Body, Spine, CRender, CRank, Reading, Attach, Render;
    var op := e.op;
    RanksAgree(op, op);
    var l, r := Reading(e.l, CRank(op), head), Reading(e.r, CRank(op) - 1, false);
    ReadingText(e.l, CRank(op), head);
    ReadingText(e.r, CRank(op) - 1, false);
    RightFits(r, op);
    AttachText(op, l, r, head);
    AttachSpine(op, l, r);
    AttachRoot(op, l, r);
  }

  /** What C writes to the right of an operator without parentheses fits there in the enum
      order too. */
  lemma RightFits(r: Expr, op: BinaryOp)
    requires Fits(r, LOOSEST, false) && (r.Bin? ==> CRank(r.op) <= CRank(op) - 1)
    ensures Fits(r, Rank(op) - 1, false)
    ensures Render(r, Rank(op) - 1, false) == Body(r, false)
  {
    hide CRank, Body;
    if r.Bin? {
      RanksAgree(r.op, op);
    }
  }

  lemma {:induction false} ReadArgsText(es: seq<Expr>, head: bool)
    ensures RenderArgs(ReadArgs(es, head), head) == CRenderArgs(es, head)
    decreases es, 3
  {
    hide Body, CRender, Reading;
    if es != [] {
      var t, rest := Reading(es[0], LOOSEST, head), ReadArgs(es[1..], false);
      ReadingText(es[0], LOOSEST, head);
      ReadArgsText(es[1..], false);
      assert ([t] + rest)[1..] == rest;
      assert Render(t, LOOSEST, head) == Body(t, head);
    }
  }

  /** The enum order reads every text written for C as the tree Read gives. */
  lemma CWrittenCompiles(e: Expr)
    ensures Compiled(CWritten(e)) == Some(Postorder(Read(e)))
  {
    hide Compiled, Postorder, Body;
    ReadingText(e, LOOSEST, false);
    WrittenCompiles(Read(e));
  }

  // ----- When both orders agree --------------------------------------------

  /** No minus has a plus as its left operand, and no < has a >, unless parentheses stand
      around it. */
  predicate Agrees(e: Expr) {
    match e
    case Bin(op, l, r) =>
      && Agrees(l) && Agrees(r)
      && !(op == Minus && l.Bin? && l.op == Plus) && !(op == Less && l.Bin? && l.op == More)
    case Neg(x) => Agrees(x)
    case App(_, args) => forall i | 0 <= i < |args| :: Agrees(args[i])
    case Group(x) => Agrees(x)
    case _ => true
  }

  lemma {:induction false} AttachLength(op: BinaryOp, t: Expr, r: Expr)
    ensures |Postorder(Attach(op, t, r))| == |Postorder(t)| + |Postorder(r)| + 1
    decreases t
  {
    if t.Bin? && Rank(t.op) > Rank(op) {
      AttachLength(op, t.r, r);
    }
  }

  lemma {:induction false} ReadingLength(e: Expr, limit: nat, head: bool)
    ensures |Postorder(Reading(e, limit, head))| == |Postorder(e)|
    decreases e, 2
  {
    hide ReadBody;
    ReadBodyLength(e, head);
    ReadBodyLength(e, true);
  }

  lemma {:induction false} ReadBodyLength(e: Expr, head: bool)
    ensures |Postorder(ReadBody(e, head))| == |Postorder(e)|
    decreases e, 1
  {
    match e {
      case Num(_) | Const(_) | Text(_) =>
      case Bin(op, l, r) =>
        hide Reading, Attach;
        ReadingLength(l, CRank(op), head);
        ReadingLength(r, CRank(op) - 1, false);
        AttachLength(op, Reading(l, CRank(op), head), Reading(r, CRank(op) - 1, false));
      case Neg(x) => ReadBodyLength(x, true);
      case App(f, args) => ReadArgsLength(args, true);
      case Group(x) => ReadBodyLength(x, true);
    }
  }

  lemma {:induction false} ReadArgsLength(es: seq<Expr>, head: bool)
    ensures |Postorders(ReadArgs(es, head))| == |Postorders(es)|
    decreases es, 3
  {
    hide Reading;
    if es != [] {
      ReadingLength(es[0], LOOSEST, head);
      ReadArgsLength(es[1..], false);
      PostordersFirst(Reading(es[0], LOOSEST, head), ReadArgs(es[1..], false));
    }
  }

  lemma PostordersFirst(t: Expr, rest: seq<Expr>)
    ensures Postorders([t] + rest) == Postorder(t) + Postorders(rest)
  {
    assert ([t] + rest)[1..] == rest;
  }

  lemma {:induction false} ReadingAgrees(e: Expr, limit: nat, head: bool)
    requires limit <= LOOSEST
    ensures Postorder(Reading(e, limit, head)) == Postorder(e) <==> Agrees(e)
    decreases e, 2
  {
    hide ReadBody, Agrees, Postorder;
    ReadBodyAgrees(e, head);
    ReadBodyAgrees(e, true);
    GroupPostorder(ReadBody(e, true));
  }

  lemma GroupPostorder(x: Expr)
    ensures Postorder(Group(x)) == Postorder(x)
  {
  }

  lemma SplitEqual<T>(a: seq<T>, b: seq<T>, c: seq<T>, d: seq<T>)
    requires |a| == |c|
    ensures a + b == c + d <==> a == c && b == d
  {
    if a + b == c + d {
      assert a == (a + b)[..|a|] && c == (c + d)[..|c|];
      assert b == (a + b)[|a|..] && d == (c + d)[|c|..];
    }
  }

  lemma {:induction false} ReadBodyAgrees(e: Expr, head: bool)
    ensures Postorder(ReadBody(e, head)) == Postorder(e) <==> Agrees(e)
    decreases e, 1
  {
    match e {
      case Num(_) | Const(_) | Text(_) =>
      case Bin(op, l, r) => ReadBinAgrees(e, head);
      case Neg(x) =>
        ReadBodyAgrees(x, true);
        ReadBodyLength(x, true);
        SplitEqual(Postorder(ReadBody(x, true)), [Operator(UnaryMinus)], Postorder(x), [Operator(UnaryMinus)]);
      case App(f, args) =>
        ReadArgsAgree(args, true);
        ReadArgsLength(args, true);
        SplitEqual(Postorders(ReadArgs(args, true)), [Call(f)], Postorders(args), [Call(f)]);
      case Group(x) => ReadBodyAgrees(x, true);
    }
  }

  lemma {:induction false} ReadArgsAgree(es: seq<Expr>, head: bool)
    ensures Postorders(ReadArgs(es, head)) == Postorders(es) <==> forall i | 0 <= i < |es| :: Agrees(es[i])
    decreases es, 3
  {
    hide Reading, Agrees, Postorder;
    if es != [] {
      var t, rest := Reading(es[0], LOOSEST, head), ReadArgs(es[1..], false);
      ReadingAgrees(es[0], LOOSEST, head);
      ReadArgsAgree(es[1..], false);
      ReadingLength(es[0], LOOSEST, head);
      PostordersFirst(t, rest);
      PostordersFirst(es[0], es[1..]);
      assert [es[0]] + es[1..] == es;
      SplitEqual(Postorder(t), Postorders(rest), Postorder(es[0]), Postorders(es[1..]));
      assert forall i | 0 <= i < |es[1..]| :: es[1..][i] == es[i + 1];
    }
  }

  lemma BinPostorder(op: BinaryOp, l: Expr, r: Expr)
    ensures Postorder(Bin(op, l, r)) == Postorder(l) + (Postorder(r) + [Operator(op)])
    ensures Postorder(Bin(op, l, r))[|Postorder(Bin(op, l, r))| - 1] == Operator(op)
  {
  }

  /** The loosest operator of a level stays at the root. */
  lemma LoosestStays(e: Expr, head: bool)
    requires e.Bin? && CRank(e.op) == Rank(e.op)
    ensures ReadBody(e, head).Bin? && ReadBody(e, head).op == e.op
  {
    hide Reading, Attach, ReadsAs;
    var l, r := Reading(e.l, CRank(e.op), head), Reading(e.r, CRank(e.op) - 1, false);
    RanksAgree(e.op, e.op);
    ReadingText(e.l, CRank(e.op), head);
    AttachRoot(e.op, l, r);
    if l.Bin? {
      ReadRank(l, CRender(e.l, CRank(e.op), head), CRank(e.op), head);
    }
  }

  lemma ReadRank(t: Expr, text: seq<Token>, limit: nat, head: bool)
    requires ReadsAs(t, text, limit, head) && t.Bin?
    ensures CRank(t.op) <= limit && Rank(t.op) <= limit
  {
    hide Body, Spine;
    RanksAgree(t.op, t.op);
  }

  lemma AgreesParts(e: Expr)
    requires e.Bin?
    ensures Agrees(e) <==>
            && Agrees(e.l) && Agrees(e.r)
            && !(e.op == Minus && e.l.Bin? && e.l.op == Plus) && !(e.op == Less && e.l.Bin? && e.l.op == More)
  {
  }

  lemma UngroupedIsBin(e: Expr, limit: nat, head: bool)
    ensures Reading(e, limit, head).Bin? <==> e.Bin? && CFits(e, limit, head)
    ensures CFits(e, limit, head) ==> Reading(e, limit, head) == ReadBody(e, head)
  {
    hide ReadBody, Spine, Body;
    ReadBodyText(e, head);
  }

  /** A looser operator at the end of the left operand: the orders disagree. */
  lemma Turned(e: Expr, l: Expr, head: bool)
    requires e.Bin? && l == Reading(e.l, CRank(e.op), head)
    requires l.Bin? && Rank(l.op) > Rank(e.op)
    requires Postorder(l) == Postorder(e.l) <==> Agrees(e.l)
    ensures !Agrees(e)
  {
    hide Reading, ReadsAs, Agrees, Postorder, CRank;
    AgreesParts(e);
    RanksAgree(e.op, e.op);
    if Agrees(e.l) {
      UngroupedIsBin(e.l, CRank(e.op), head);
      ReadingText(e.l, CRank(e.op), head);
      ReadRank(l, CRender(e.l, CRank(e.op), head), CRank(e.op), head);
      BinPostorder(l.op, l.l, l.r);
      BinPostorder(e.l.op, e.l.l, e.l.r);
      RanksAgree(l.op, e.op);
    }
  }

  lemma Straight(e: Expr, l: Expr, head: bool)
    requires e.Bin? && l == Reading(e.l, CRank(e.op), head)
    requires !(l.Bin? && Rank(l.op) > Rank(e.op))
    ensures Agrees(e) <==> Agrees(e.l) && Agrees(e.r)
  {
    hide Reading, ReadBody, Agrees;
    AgreesParts(e);
    if e.l.Bin? && ((e.op == Minus && e.l.op == Plus) || (e.op == Less && e.l.op == More)) {
      UngroupedIsBin(e.l, CRank(e.op), head);
      LoosestStays(e.l, head);
      assert false;
    }
  }

  lemma StraightAttach(op: BinaryOp, t: Expr, r: Expr)
    requires !(t.Bin? && Rank(t.op) > Rank(op))
    ensures Attach(op, t, r) == Bin(op, t, r)
  {
  }

  lemma {:induction false} ReadBinAgrees(e: Expr, head: bool)
    requires e.Bin?
    ensures Postorder(ReadBody(e, head)) == Postorder(e) <==> Agrees(e)
    decreases e, 0
  {
    hide Postorder, CRank, Reading, Attach;
    var op := e.op;
    RanksAgree(op, op);
    var l, r := Reading(e.l, CRank(op), head), Reading(e.r, CRank(op) - 1, false);
    ReadingAgrees(e.l, CRank(op), head);
    ReadingAgrees(e.r, CRank(op) - 1, false);
    ReadingLength(e.l, CRank(op), head);
    ReadingLength(e.r, CRank(op) - 1, false);
    BinPostorder(op, e.l, e.r);
    var a := Attach(op, l, r);
    if l.Bin? && Rank(l.op) > Rank(op) {
      Turned(e, l, head);
      AttachRoot(op, l, r);
      BinPostorder(a.op, a.l, a.r);
    } else {
      Straight(e, l, head);
      StraightAttach(op, l, r);
      BinPostorder(op, l, r);
      SplitEqual(Postorder(l), Postorder(r) + [Operator(op)], Postorder(e.l), Postorder(e.r) + [Operator(op)]);
      SplitEqual(Postorder(r), [Operator(op)], Postorder(e.r), [Operator(op)]);
    }
  }

  /** Exactly when the code reads a text as C does: when no minus has an unparenthesised
      plus as its left operand, and no < an unparenthesised >. */
  lemma ReadsAsCIffAgrees(e: Expr)
    ensures Compiled(CWritten(e)) == Some(Postorder(e)) <==> Agrees(e)
  {
    hide Compiled, Postorder, Agrees;
    CWrittenCompiles(e);
    ReadingAgrees(e, LOOSEST, false);
  }
}
