/** The tokeniser's characters and its table, said without the table: what each character
    is, what may follow what, where that leads, and that words and numbers are read whole. */
module LexerLaws {
  import opened Prelude
  import opened ParserDfa

  // ----- Characters --------------------------------------------------------

  predicate WordStart(c: char) {
    'a' <= c <= 'z' || 'A' <= c <= 'Z' || c in "$:\"[]_"
  }

  const OPENING: char := '('
  const CLOSING: char := ')'
  const COMMA: char := ','
  const QUOTE: char := '\''
  const SPACES: string := [' ', '\t', '\n', 11 as char, 12 as char, '\r']

  /** What one character alone is, outside strings. */
  lemma OneCharacter(c: char, q: LexState)
    requires q != CaptureString && c != '\0'
    ensures GetToken([c], q) == AAlpha <==> WordStart(c)
    ensures GetToken([c], q) == ADigit <==> '0' <= c <= '9'
    ensures GetToken([c], q) == ADot <==> c == '.'
    ensures GetToken([c], q) == ASpace <==> c in SPACES
    ensures GetToken([c], q) == ALeftParen <==> c == OPENING
    ensures GetToken([c], q) == ARightParen <==> c == CLOSING
    ensures GetToken([c], q) == AComma <==> c == COMMA
    ensures GetToken([c], q) == ALess <==> c == '<'
    ensures GetToken([c], q) == AMore <==> c == '>'
    ensures GetToken([c], q) == AQuote <==> c == QUOTE
    ensures GetToken([c], q) == APlus <==> c == '+'
    ensures GetToken([c], q) == AMinus <==> c == '-'
    ensures GetToken([c], q) !in {AAnd, AOr, ACmp, AEol}
  {
  }

  /** The operators of two characters. */
  lemma TwoCharacters(text: string, p: nat, q: LexState)
    requires p + 1 < |text| && q != CaptureString && text[p] == text[p + 1]
    ensures text[p] == '&' ==> ReadToken(text, p, q) == (AAnd, p + 2)
    ensures text[p] == '|' ==> ReadToken(text, p, q) == (AOr, p + 2)
    ensures text[p] == '=' ==> ReadToken(text, p, q) == (ACmp, p + 2)
  {
    if text[p] in {'&', '|', '='} {
      BufferOne(text, p);
      BufferOne(text, p + 1);
      assert Buffer(text, p, 2) == [text[p], text[p]];
      PairOf(text[p], q);
      hide GetToken;
    }
  }

  lemma PairOf(c: char, q: LexState)
    requires q != CaptureString && c in {'&', '|', '='}
    ensures GetToken([c], q) == AInvalid
    ensures GetToken([c, c], q) == if c == '&' then AAnd else if c == '|' then AOr else ACmp
  {
    assert "&&" == ['&', '&'] && "||" == ['|', '|'] && "==" == ['=', '='];
  }

  // ----- The table ---------------------------------------------------------

  const STARTS: set<Alphabet> := {AAlpha, ADigit, ALeftParen, ASpace}

  const FOLLOWS: set<Alphabet> := {ARightParen, AComma, AAnd, AOr, APlus, AMinus, ACmp, ALess, AMore, AEol}

  /** What may be read in a state: behind operators an operand, behind operands an operator,
      a closing parenthesis, a comma or the end; words and numbers go on; a string begins
      only at the beginning and behind spaces, left parentheses and commas. */
  function Readable(q: LexState): set<Alphabet> {
    match q
    case Start => STARTS + FOLLOWS + {AQuote}
    case Alpha => FOLLOWS + {AAlpha, ADigit, ADot, ASpace, ALeftParen}
    case Digit => FOLLOWS + {AAlpha, ADigit, ADot, ASpace}
    case RightParen => FOLLOWS + {ASpace}
    case LeftParen => STARTS + {ARightParen, AMinus, AQuote}
    case Comma => STARTS + {AQuote}
    case And | Or | Plus | Minus | Cmp | Less | More => STARTS
    case UnaryMinus => {ADigit, ALeftParen}
    case CaptureString | Error => STARTS + FOLLOWS + {ADot, AQuote}
    case End | Invalid => {}
  }

  lemma ReadableIff(q: LexState, token: Alphabet)
    ensures NextState(q, token) != Invalid <==> token in Readable(q)
  {
  }

  /** A lexeme's own state, except that digits, dots and spaces stay in a word, dots stay in
      a number, and a dash behind a left parenthesis is a unary minus. */
  function Entered(q: LexState, token: Alphabet): LexState {
    match token
    case AAlpha => Alpha
    case ADigit => if q == Alpha then Alpha else Digit
    case ADot => q
    case ASpace => if q == Alpha then Alpha else Start
    case ALeftParen => LeftParen
    case ARightParen => RightParen
    case AComma => Comma
    case AAnd => And
    case AOr => Or
    case ACmp => Cmp
    case ALess => Less
    case AMore => More
    case APlus => Plus
    case AMinus => if q == LeftParen then UnaryMinus else Minus
    case AQuote => CaptureString
    case AEol => End
    case AInvalid => Invalid
  }

  /** Where a lexeme leads, outside strings. */
  lemma Leads(q: LexState, token: Alphabet)
    requires token in Readable(q) && q !in {CaptureString, Error}
    ensures NextState(q, token) == Entered(q, token)
  {
    hide Readable, NextState, Entered;
    ReadableIff(q, token);
    LeadsOn(q, token);
  }

  lemma LeadsOn(q: LexState, token: Alphabet)
    requires NextState(q, token) != Invalid && q !in {CaptureString, Error}
    ensures NextState(q, token) == Entered(q, token)
  {
    hide NextState, Entered;
    match q
    case Start | Alpha | Digit => OperandLeads(q, token);
    case RightParen | LeftParen | Comma => BracketLeads(q, token);
    case _ => OperatorLeads(q, token);
  }

  lemma OperandLeads(q: LexState, token: Alphabet)
    requires NextState(q, token) != Invalid && (q == Start || q == Alpha || q == Digit)
    ensures NextState(q, token) == Entered(q, token)
  {
  }

  lemma BracketLeads(q: LexState, token: Alphabet)
    requires NextState(q, token) != Invalid && (q == RightParen || q == LeftParen || q == Comma)
    ensures NextState(q, token) == Entered(q, token)
  {
  }

  lemma OperatorLeads(q: LexState, token: Alphabet)
    requires NextState(q, token) != Invalid && !q.CaptureString? && !q.Error?
    requires !q.Start? && !q.Alpha? && !q.Digit? && !q.RightParen? && !q.LeftParen? && !q.Comma?
    ensures NextState(q, token) == Entered(q, token)
  {
  }

  // ----- Words and numbers -------------------------------------------------

  lemma WordRow(token: Alphabet)
    ensures NextState(Start, AAlpha) == Alpha && NextState(Alpha, AEol) == End
    ensures token == AAlpha || token == ADigit || token == ADot || token == ASpace ==> NextState(Alpha, token) == Alpha
  {
  }

  lemma NumberRow(token: Alphabet)
    ensures NextState(Start, ADigit) == Digit && NextState(Digit, AEol) == End
    ensures token == ADigit || token == ADot ==> NextState(Digit, token) == Digit
  {
  }

  predicate WordCharacter(c: char) {
    WordStart(c) || '0' <= c <= '9' || c == '.' || c == ' '
  }

  lemma WordToken(c: char, q: LexState)
    requires WordCharacter(c) && q != CaptureString
    ensures var token := GetToken([c], q);
            c != '\0' && (token == AAlpha || token == ADigit || token == ADot || token == ASpace)
  {
    hide GetToken;
    OneCharacter(c, q);
  }

  /** The rest of a word that is being read, and the end of the line. */
  lemma {:induction false} WordGoesOn(w: string, ok: Config -> bool, c: Config)
    requires c.state == Alpha && c.current in {Start, Alpha} && c.pos <= |w|
    requires forall i | 0 <= i < |w| :: WordCharacter(w[i])
    ensures Turns(w, ok, c, |w| - c.pos + 1).state == End
    decreases |w| - c.pos
  {
    hide ReadToken, NextState, GetToken, WordCharacter;
    var d := Turn(w, ok, c);
    if c.pos == |w| {
      EndOfLine(w, c.pos, Alpha);
      WordRow(AEol);
      assert Turns(w, ok, c, 1) == Turns(w, ok, d, 0);
    } else {
      WordToken(w[c.pos], Alpha);
      OneOrMore(w, c.pos, Alpha);
      WordRow(GetToken([w[c.pos]], Alpha));
      assert d == Config(Alpha, Alpha, c.pos + 1);
      WordGoesOn(w, ok, d);
    }
  }

  /** A word of letters, digits, dots and spaces is one operand and reaches END, whatever the
      handlers answer. */
  lemma WordReachesEnd(w: string, ok: Config -> bool)
    requires w != "" && WordStart(w[0]) && forall i | 0 <= i < |w| :: WordCharacter(w[i])
    ensures Turns(w, ok, BEGIN, |w| + 1).state == End
  {
    hide ReadToken, NextState, GetToken;
    OneCharacter(w[0], Start);
    OneOrMore(w, 0, Start);
    WordRow(AAlpha);
    assert Turn(w, ok, BEGIN) == Config(Alpha, Start, 1);
    WordGoesOn(w, ok, Config(Alpha, Start, 1));
  }

  lemma {:induction false} NumberGoesOn(w: string, ok: Config -> bool, c: Config)
    requires c.state == Digit && c.pos <= |w|
    requires forall i | 0 <= i < |w| :: '0' <= w[i] <= '9' || w[i] == '.'
    ensures Turns(w, ok, c, |w| - c.pos + 1).state == End
    decreases |w| - c.pos
  {
    hide ReadToken, NextState, GetToken;
    var d := Turn(w, ok, c);
    if c.pos == |w| {
      EndOfLine(w, c.pos, Digit);
      NumberRow(AEol);
      assert Turns(w, ok, c, 1) == Turns(w, ok, d, 0);
    } else {
      OneCharacter(w[c.pos], Digit);
      OneOrMore(w, c.pos, Digit);
      NumberRow(GetToken([w[c.pos]], Digit));
      NumberGoesOn(w, ok, d);
    }
  }

  /** A number of digits and dots is one operand and reaches END. */
  lemma NumberReachesEnd(w: string, ok: Config -> bool)
    requires w != "" && '0' <= w[0] <= '9' && forall i | 0 <= i < |w| :: '0' <= w[i] <= '9' || w[i] == '.'
    ensures Turns(w, ok, BEGIN, |w| + 1).state == End
  {
    hide ReadToken, NextState, GetToken;
    OneCharacter(w[0], Start);
    OneOrMore(w, 0, Start);
    NumberRow(ADigit);
    assert Turn(w, ok, BEGIN) == Config(Digit, Start, 1);
    NumberGoesOn(w, ok, Config(Digit, Start, 1));
  }

  /** Which failures end a run: that of the word, right parenthesis or comma that waits,
      unless a number follows or the same word goes on. */
  lemma FailureEndsRun(text: string, ok: Config -> bool, c: Config)
    requires !Halted(c.state) && c.state != Invalid
    ensures Turn(text, ok, c).state == Error <==>
            !ok(c) && c.state != Digit &&
            (c.current == RightParen || c.current == Comma || (c.current == Alpha && c.state != Alpha))
  {
    hide ReadToken;
    var token := ReadToken(text, c.pos, c.state).0;
    if c.state == CaptureString {
      CaptureRow(token);
    } else {
      OutsideStates(c.state, token);
    }
  }
}
