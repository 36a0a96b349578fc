/** The transition table of parser_dfa.c, the tokeniser that reads an expression
    one lexeme at a time, and the driver loop that runs the state handlers. */
module ParserDfa {
  import opened Prelude

  datatype Alphabet =
    | AAlpha | ADigit | ARightParen | ALeftParen | AComma | AAnd | AOr | ACmp
    | ALess | AMore | AEol | ASpace | AQuote | ADot | APlus | AMinus | AInvalid

  datatype LexState =
    | Start | Alpha | Digit | RightParen | LeftParen | Comma | And | Or | Cmp
    | Less | More | Plus | Minus | UnaryMinus | CaptureString | Error | End | Invalid

  /** Where a state goes on the tokens that every binary operator and the comma
      share: an operand may begin, anything else is refused. */
  function OperandOnly(token: Alphabet): LexState {
    match token
    case AAlpha => Alpha
    case ADigit => Digit
    case ALeftParen => LeftParen
    case ASpace => Start
    case _ => Invalid
  }

  /** Where a state goes on the tokens that may follow a complete operand. */
  function AfterOperandOnly(token: Alphabet): LexState {
    match token
    case ARightParen => RightParen
    case AComma => Comma
    case AAnd => And
    case AOr => Or
    case APlus => Plus
    case AMinus => Minus
    case ACmp => Cmp
    case ALess => Less
    case AMore => More
    case AEol => End
    case _ => Invalid
  }

  /** parser_dfa_next_state: the rows of dfa_transitions, grouped by source state. */
  function NextState(source: LexState, token: Alphabet): LexState {
    if token == AInvalid then Invalid else
    match source
    case Start =>
      (match token
       case AAlpha => Alpha
       case ADigit => Digit
       case ALeftParen => LeftParen
       case ASpace => Start
       case AQuote => CaptureString
       case _ => AfterOperandOnly(token))
    case Alpha =>
      (match token
       case AAlpha | ADigit | ADot | ASpace => Alpha
       case ALeftParen => LeftParen
       case _ => AfterOperandOnly(token))
    case Digit =>
      (match token
       case ADigit | ADot => Digit
       case AAlpha => Alpha
       case ASpace => Start
       case _ => AfterOperandOnly(token))
    case LeftParen =>
      (match token
       case ARightParen => RightParen
       case AMinus => UnaryMinus
       case AQuote => CaptureString
       case _ => OperandOnly(token))
    case RightParen => if token == ASpace then Start else AfterOperandOnly(token)
    case Comma => if token == AQuote then CaptureString else OperandOnly(token)
    case And | Or | Plus | Minus | Cmp | Less | More => OperandOnly(token)
    case UnaryMinus =>
      (match token
       case ADigit => Digit
       case ALeftParen => LeftParen
       case _ => Invalid)
    case CaptureString => if token == AQuote then Start else CaptureString
    case Error => End
    case End | Invalid => Invalid
  }

  // ----- Reading one lexeme ------------------------------------------------

  predicate IsAlpha(c: char) { 'a' <= c <= 'z' || 'A' <= c <= 'Z' }

  /** parser_dfa_get_token on a buffer that starts with `s` and is followed by NUL.
      A line feed or carriage return is a space: isspace is asked before the
      end-of-line test, so only NUL ends a line. */
  function GetToken(s: seq<char>, source: LexState): Alphabet {
    var c := if s == [] then '\0' else s[0];
    if IsAlpha(c) || c in "$:\"[]_" then AAlpha
    else if c == '.' then ADot
    else if '0' <= c <= '9' then ADigit
    else if IsSpace(c) then ASpace
    else if c == ')' then ARightParen
    else if c == '(' then ALeftParen
    else if c == ',' then AComma
    else if c == '\0' then AEol
    else if c == '<' then ALess
    else if c == '>' then AMore
    else if c == '\'' then AQuote
    else if c == '+' then APlus
    else if c == '-' then AMinus
    else if s == "&&" then AAnd
    else if s == "||" then AOr
    else if s == "==" then ACmp
    else if s == "\\'" then AAlpha
    else if |s| != 2 && c == '\\' then AInvalid
    else if source == CaptureString then AAlpha
    else AInvalid
  }

  /** The text up to its terminator, read from `pos`; past the end there is only NUL. */
  function CharAt(text: string, pos: nat): char {
    if pos < |text| then text[pos] else '\0'
  }

  /** The bytes of parsed_token that strlen sees after `n` characters were stored. */
  function Buffer(text: string, pos: nat, n: nat): (s: string)
    ensures |s| <= n
    decreases n
  {
    if n == 0 || CharAt(text, pos) == '\0' then "" else [CharAt(text, pos)] + Buffer(text, pos + 1, n - 1)
  }

  /** parser_dfa_read_next_token: up to three characters are tried before giving up. */
  function ReadToken(text: string, pos: nat, source: LexState): (r: (Alphabet, nat))
    ensures pos < r.1 <= pos + 3
  {
    var one := GetToken(Buffer(text, pos, 1), source);
    if one != AInvalid then (one, pos + 1) else
    var two := GetToken(Buffer(text, pos, 2), source);
    if two != AInvalid then (two, pos + 2) else
    (GetToken(Buffer(text, pos, 3), source), pos + 3)
  }

  // ----- The driver --------------------------------------------------------

  /** Where the loop stands: the state whose handler runs next, the state whose lexeme
      waits to be processed (current_state of the context), and what is unread. */
  datatype Config = Config(state: LexState, current: LexState, pos: nat)

  const BEGIN: Config := Config(Start, Start, 0)

  predicate Halted(q: LexState) { q == End || q == Error }

  /** Whether the work for the lexeme before can fail, and its failure is looked at:
      only words, right parentheses and commas answer anything, a handler that is entered
      again from its own state does no work, and state_digit does not look. */
  predicate Checked(c: Config) {
    c.current in {Alpha, RightParen, Comma} && !(c.state == c.current == Alpha) && c.state != Digit
  }

  /** One turn of the loop in parser_dfa_run. `ok` answers whether that work succeeds; a
      handler that sees it fail returns the error state. */
  function Turn(text: string, ok: Config -> bool, c: Config): Config {
    if Halted(c.state) then c
    else if c.state == Invalid || (Checked(c) && !ok(c)) then Config(Error, c.current, c.pos)
    else
      var (token, pos) := ReadToken(text, c.pos, c.state);
      Config(NextState(c.state, token), c.state, pos)
  }

  function Turns(text: string, ok: Config -> bool, c: Config, n: nat): Config
    decreases n
  {
    if n == 0 then c else Turns(text, ok, Turn(text, ok, c), n - 1)
  }

  ghost predicate Halts(text: string, ok: Config -> bool, c: Config) {
    exists n: nat :: Halted(Turns(text, ok, c, n).state)
  }

  lemma {:induction false} HaltedStays(text: string, ok: Config -> bool, c: Config, n: nat)
    requires Halted(c.state)
    ensures Turns(text, ok, c, n) == c
  {
    if n > 0 {
      HaltedStays(text, ok, c, n - 1);
    }
  }

  lemma {:induction false} TurnsAdd(text: string, ok: Config -> bool, c: Config, m: nat, n: nat)
    ensures Turns(text, ok, Turns(text, ok, c, m), n) == Turns(text, ok, c, m + n)
    decreases m
  {
    if m > 0 {
      TurnsAdd(text, ok, Turn(text, ok, c), m - 1, n);
    }
  }

  /** Whether a run halts can be asked anywhere along it. */
  lemma HaltsFromHere(text: string, ok: Config -> bool, c: Config, m: nat)
    ensures Halts(text, ok, c) <==> Halts(text, ok, Turns(text, ok, c, m))
  {
    hide Turns;
    var d := Turns(text, ok, c, m);
    if Halts(text, ok, d) {
      var n: nat :| Halted(Turns(text, ok, d, n).state);
      TurnsAdd(text, ok, c, m, n);
    }
    if Halts(text, ok, c) {
      var n: nat :| Halted(Turns(text, ok, c, n).state);
      HaltedStays(text, ok, Turns(text, ok, c, n), m);
      TurnsAdd(text, ok, c, n, m);
      TurnsAdd(text, ok, c, m, n);
    }
  }

  // ----- Every turn reads on -----------------------------------------------

  /** At the terminator the next lexeme is the end of the line. */
  lemma EndOfLine(text: string, pos: nat, source: LexState)
    requires |text| <= pos
    ensures ReadToken(text, pos, source) == (AEol, pos + 1)
  {
  }

  /** A configuration that the rest of the run can leave only through End or Error
      within `left` turns, or that is caught inside an unclosed string. */
  ghost predicate Bounded(text: string, c: Config, left: nat) {
    || Halted(c.state)
    || (c.state == CaptureString && |text| < c.pos)
    || (c.state == Invalid && 1 <= left)
    || (c.state != Invalid && 3 <= left && |text| + 3 <= c.pos + left)
  }

  lemma BoundedTurn(text: string, ok: Config -> bool, c: Config, left: nat)
    requires Bounded(text, c, left) && 0 < left
    ensures Bounded(text, Turn(text, ok, c), left - 1)
  {
    hide ReadToken;
    if !Halted(c.state) && c.state != Invalid && !(Checked(c) && !ok(c)) {
      if |text| <= c.pos {
        EndOfLine(text, c.pos, c.state);
      } else {
        var (token, pos) := ReadToken(text, c.pos, c.state);
        assert Turn(text, ok, c) == Config(NextState(c.state, token), c.state, pos);
      }
    }
  }

  lemma {:induction false} BoundedRun(text: string, ok: Config -> bool, c: Config, left: nat)
    requires Bounded(text, c, left)
    ensures var d := Turns(text, ok, c, left);
            Halted(d.state) || (d.state == CaptureString && |text| < d.pos)
    decreases left
  {
    hide Turn;
    if left > 0 {
      BoundedTurn(text, ok, c, left);
      BoundedRun(text, ok, Turn(text, ok, c), left - 1);
    }
  }

  /** From the start every expression reaches END or ERROR within |text| + 3 turns, or
      is by then inside a string whose closing quote was never read. */
  lemma HaltsOrCaptures(text: string, ok: Config -> bool)
    ensures var d := Turns(text, ok, BEGIN, |text| + 3);
            Halted(d.state) || (d.state == CaptureString && |text| < d.pos)
  {
    BoundedRun(text, ok, BEGIN, |text| + 3);
  }

  // ----- Inside a string ---------------------------------------------------

  /** What follows `p`, read inside a string, leaves the string open: no closing quote,
      where a backslash takes the next character with it, and no backslash at the end. */
  predicate Open(text: string, p: nat)
    decreases |text| - p
  {
    if p >= |text| then true
    else if text[p] == '\'' then false
    else if text[p] == '\\' then p + 1 < |text| && Open(text, p + 2)
    else Open(text, p + 1)
  }

  /** One lexeme inside a string. */
  lemma StringToken(text: string, p: nat)
    requires p < |text|
    ensures var (token, pos) := ReadToken(text, p, CaptureString);
            if text[p] == '\'' then token == AQuote && pos == p + 1
            else if text[p] != '\\' then token != AQuote && token != AInvalid && pos == p + 1
            else if p + 1 < |text| && text[p + 1] != '\0' then token == AAlpha && pos == p + 2
            else token == AInvalid
  {
    if text[p] == '\\' {
      EscapeToken(text, p);
    } else if text[p] != '\0' {
      BufferOne(text, p);
    }
  }

  lemma BufferOne(text: string, p: nat)
    requires CharAt(text, p) != '\0'
    ensures Buffer(text, p, 1) == [CharAt(text, p)]
  {
    assert Buffer(text, p + 1, 0) == [];
  }

  /** A backslash takes the next character with it, a quote everywhere, any other one
      inside a string only; a backslash in front of the terminator is no lexeme. */
  lemma EscapeToken(text: string, p: nat)
    requires p < |text| && text[p] == '\\'
    ensures var next := CharAt(text, p + 1);
            forall source :: ReadToken(text, p, source) ==
                             if next == '\'' || (next != '\0' && source == CaptureString)
                             then (AAlpha, p + 2) else (AInvalid, p + 3)
  {
    var next := CharAt(text, p + 1);
    BufferOne(text, p);
    if next == '\0' {
      assert Buffer(text, p + 1, 1) == "" && Buffer(text, p + 1, 2) == "";
      assert Buffer(text, p, 2) == "\\" && Buffer(text, p, 3) == "\\";
    } else {
      BufferOne(text, p + 1);
      assert Buffer(text, p, 2) == ['\\', next];
      var three := Buffer(text, p, 3);
      assert three == ['\\', next] + Buffer(text, p + 2, 1);
      assert |three| == 3 || three == ['\\', next];
    }
  }

  /** One turn inside a string that is being captured. */
  lemma StringTurn(text: string, ok: Config -> bool, c: Config)
    requires '\0' !in text && c.state == CaptureString && (Checked(c) ==> ok(c))
    ensures var d := Turn(text, ok, c);
            if Open(text, c.pos) then d.state == CaptureString && d.current == CaptureString && Open(text, d.pos)
            else d.state != CaptureString || (c.pos < d.pos <= |text| && d.current == CaptureString && !Open(text, d.pos))
  {
    hide ReadToken, NextState;
    CaptureRow(ReadToken(text, c.pos, c.state).0);
    if c.pos < |text| {
      StringToken(text, c.pos);
    } else {
      EndOfLine(text, c.pos, c.state);
    }
  }

  /** Only a quote and a failing lexeme leave the capture state. */
  lemma CaptureRow(token: Alphabet)
    ensures NextState(CaptureString, token) ==
            if token == AQuote then Start else if token == AInvalid then Invalid else CaptureString
  {
  }

  lemma {:induction false} OpenStays(text: string, ok: Config -> bool, c: Config, n: nat)
    requires '\0' !in text && c.state == CaptureString && (Checked(c) ==> ok(c)) && Open(text, c.pos)
    ensures Turns(text, ok, c, n).state == CaptureString
    decreases n
  {
    hide Turn;
    if n > 0 {
      StringTurn(text, ok, c);
      OpenStays(text, ok, Turn(text, ok, c), n - 1);
    }
  }

  lemma {:induction false} ClosedLeaves(text: string, ok: Config -> bool, c: Config) returns (n: nat)
    requires '\0' !in text && c.state == CaptureString && (Checked(c) ==> ok(c)) && !Open(text, c.pos)
    ensures Turns(text, ok, c, n).state != CaptureString
    decreases |text| - c.pos
  {
    var d := Turn(text, ok, c);
    StringTurn(text, ok, c);
    n := 0;
    if d.state == CaptureString {
      n := ClosedLeaves(text, ok, d);
    }
    assert Turns(text, ok, c, n + 1) == Turns(text, ok, d, n);
    n := n + 1;
  }

  /** Once the work for what stands before a string has succeeded, the run stays inside
      the string for ever if and only if the text behind the quote is open. */
  lemma StaysIffOpen(text: string, ok: Config -> bool, c: Config)
    requires '\0' !in text && c.state == CaptureString && (Checked(c) ==> ok(c))
    ensures (forall n: nat :: Turns(text, ok, c, n).state == CaptureString) <==> Open(text, c.pos)
  {
    if Open(text, c.pos) {
      forall n: nat ensures Turns(text, ok, c, n).state == CaptureString {
        OpenStays(text, ok, c, n);
      }
    } else {
      var n := ClosedLeaves(text, ok, c);
    }
  }

  /** A quote and an open tail: no number of turns ends the loop, whatever the work for
      other lexemes would answer. */
  lemma OpenQuoteNeverHalts(tail: string, ok: Config -> bool)
    requires '\0' !in tail && Open(tail, 0)
    ensures !Halts(['\''] + tail, ok, BEGIN)
  {
    hide ReadToken;
    var text := ['\''] + tail;
    QuoteOpens(text, ok);
    OpenBehind(tail, 0);
    var c := Turn(text, ok, BEGIN);
    forall n: nat ensures !Halted(Turns(text, ok, c, n).state) {
      OpenStays(text, ok, c, n);
    }
    assert Turns(text, ok, BEGIN, 1) == Turns(text, ok, c, 0);
    HaltsFromHere(text, ok, BEGIN, 1);
  }

  /** Letters behind a quote never end. */
  lemma OpenLetters(ok: Config -> bool)
    ensures !Halts("'abc", ok, BEGIN)
  {
    assert Open("abc", 3) && Open("abc", 2) && Open("abc", 1);
    OpenQuoteNeverHalts("abc", ok);
    assert ['\''] + "abc" == "'abc";
  }

  /** A lone backslash behind a quote makes the run fail. */
  lemma LoneBackslash(ok: Config -> bool)
    ensures Turns("'\\", ok, BEGIN, 3).state == Error
  {
    hide ReadToken;
    var text := "'\\";
    QuoteOpens(text, ok);
    StringToken(text, 1);
    var c := Turn(text, ok, BEGIN);
    var d := Turn(text, ok, c);
    assert d.state == Invalid;
    assert Turns(text, ok, d, 1) == Turns(text, ok, Turn(text, ok, d), 0);
    assert Turns(text, ok, c, 2) == Turns(text, ok, d, 1);
    assert Turns(text, ok, BEGIN, 3) == Turns(text, ok, c, 2);
  }

  lemma QuoteOpens(text: string, ok: Config -> bool)
    requires text != [] && text[0] == '\''
    ensures Turn(text, ok, BEGIN) == Config(CaptureString, Start, 1)
  {
  }

  lemma {:induction false} OpenBehind(tail: string, p: nat)
    ensures Open(['\''] + tail, p + 1) <==> Open(tail, p)
    decreases |tail| - p
  {
    if p < |tail| {
      OpenBehind(tail, p + 1);
      if p + 1 < |tail| {
        OpenBehind(tail, p + 2);
      }
    }
  }

  // ----- Exactly when the run halts ----------------------------------------

  /** After n turns a string begins at p: its quote has just been read, in a state in
      which the table lets a string begin, and the work for the lexeme before succeeds. */
  ghost predicate BeginsString(text: string, ok: Config -> bool, n: nat, p: nat) {
    var c := Turns(text, ok, BEGIN, n);
    c.state == CaptureString && c.current != CaptureString && c.pos == p && (Checked(c) ==> ok(c))
  }

  lemma TurnAtEnd(text: string, ok: Config -> bool, n: nat)
    requires 0 < n
    ensures Turns(text, ok, BEGIN, n) == Turn(text, ok, Turns(text, ok, BEGIN, n - 1))
  {
    hide Turn;
    var d := Turns(text, ok, BEGIN, n - 1);
    TurnsAdd(text, ok, BEGIN, n - 1, 1);
    assert Turns(text, ok, d, 1) == Turns(text, ok, Turn(text, ok, d), 0);
  }

  /** The state that waits is the state of the turn before. */
  lemma CurrentIsBefore(text: string, ok: Config -> bool, c: Config)
    ensures var d := Turn(text, ok, c); d.state == CaptureString ==> d.current == c.state && !(Checked(c) && !ok(c))
  {
    hide ReadToken, NextState;
  }

  /** A run inside a string came in through the beginning of one, and what is open now
      was open there. */
  lemma {:induction false} CameIn(text: string, ok: Config -> bool, n: nat) returns (m: nat, p: nat)
    requires '\0' !in text
    requires var d := Turns(text, ok, BEGIN, n); d.state == CaptureString && (Checked(d) ==> ok(d))
    ensures BeginsString(text, ok, m, p)
    ensures Open(text, Turns(text, ok, BEGIN, n).pos) ==> Open(text, p)
    decreases n
  {
    hide Turn, Open;
    var d := Turns(text, ok, BEGIN, n);
    if n == 0 {
      assert false;
    } else if d.current != CaptureString {
      m, p := n, d.pos;
    } else {
      TurnAtEnd(text, ok, n);
      var before := Turns(text, ok, BEGIN, n - 1);
      CurrentIsBefore(text, ok, before);
      StringTurn(text, ok, before);
      m, p := CameIn(text, ok, n - 1);
    }
  }

  lemma OpenPastEnd(text: string, p: nat)
    requires |text| <= p
    ensures Open(text, p)
  {
  }

  lemma FailureHalts(text: string, ok: Config -> bool, c: Config)
    requires Checked(c) && !ok(c)
    ensures Halts(text, ok, c)
  {
    var d := Turn(text, ok, c);
    assert Turns(text, ok, c, 1) == Turns(text, ok, d, 0);
  }

  /** The loop of parser_dfa_run ends if and only if no string that it begins is open. */
  lemma HaltsIffNoOpenString(text: string, ok: Config -> bool)
    requires '\0' !in text
    ensures Halts(text, ok, BEGIN) <==> !exists n: nat, p: nat :: BeginsString(text, ok, n, p) && Open(text, p)
  {
    hide Turn, Turns, Open;
    var bound := |text| + 3;
    var d := Turns(text, ok, BEGIN, bound);
    HaltsOrCaptures(text, ok);
    if !Halts(text, ok, BEGIN) {
      assert !Halted(d.state);
      HaltsFromHere(text, ok, BEGIN, bound);
      if Checked(d) && !ok(d) {
        FailureHalts(text, ok, d);
      }
      OpenPastEnd(text, d.pos);
      var n, p := CameIn(text, ok, bound);
      assert BeginsString(text, ok, n, p) && Open(text, p);
    }
    forall n: nat, p: nat | BeginsString(text, ok, n, p) && Open(text, p) ensures !Halts(text, ok, BEGIN) {
      var c := Turns(text, ok, BEGIN, n);
      forall k: nat ensures !Halted(Turns(text, ok, c, k).state) {
        OpenStays(text, ok, c, k);
      }
      HaltsFromHere(text, ok, BEGIN, n);
    }
  }

  // ----- What the text alone tells -----------------------------------------

  /** Read from `p`, inside a string or outside, every string that is begun is closed, or
      a backslash stands where the tokeniser fails on it. */
  predicate Closes(text: string, p: nat, inside: bool)
    decreases |text| - p
  {
    if p >= |text| then !inside
    else if text[p] == '\'' then Closes(text, p + 1, !inside)
    else if text[p] == '\\' then
      if CharAt(text, p + 1) == '\'' || (inside && CharAt(text, p + 1) != '\0') then Closes(text, p + 2, inside)
      else true
    else Closes(text, p + 1, inside)
  }

  lemma {:induction false} NoQuoteCloses(text: string, p: nat)
    requires '\'' !in text
    ensures Closes(text, p, false)
    decreases |text| - p
  {
    if p < |text| {
      assert text[p] in text && (p + 1 < |text| ==> text[p + 1] in text);
      NoQuoteCloses(text, p + 1);
    }
  }

  /** One lexeme outside strings: no quote is passed over. */
  lemma OutsideToken(text: string, p: nat, source: LexState)
    requires p < |text| && source != CaptureString
    ensures var (token, pos) := ReadToken(text, p, source);
            && (text[p] == '\'' <==> token == AQuote)
            && (text[p] == '\'' ==> pos == p + 1)
            && (token == AEol ==> text[p] == '\0')
            && (text[p] != '\'' && token != AInvalid ==> Closes(text, pos, false) == Closes(text, p, false))
  {
    hide GetToken, Buffer, ReadToken;
    if text[p] == '\\' {
      EscapeToken(text, p);
    } else {
      CharToken(text[p], source);
      OneOrMore(text, p, source);
      if text[p] != '\0' && GetToken([text[p]], source) == AInvalid {
        PairToken(text, p, source);
      }
    }
  }

  lemma CharToken(c: char, source: LexState)
    requires c != '\\'
    ensures c != '\0' ==> (GetToken([c], source) == AQuote <==> c == '\'')
    ensures GetToken([c], source) == AEol <==> c == '\0'
  {
  }

  /** A lexeme of one character, if that character alone is one. */
  lemma OneOrMore(text: string, p: nat, source: LexState)
    requires p < |text|
    ensures text[p] == '\0' ==> ReadToken(text, p, source) == (AEol, p + 1)
    ensures text[p] != '\0' && GetToken([text[p]], source) != AInvalid ==>
              ReadToken(text, p, source) == (GetToken([text[p]], source), p + 1)
  {
    if text[p] != '\0' {
      hide GetToken;
      BufferOne(text, p);
    }
  }

  /** Two characters make a lexeme only when they are equal and no quote. */
  lemma PairToken(text: string, p: nat, source: LexState)
    requires p < |text| && source != CaptureString && text[p] !in "'\\\0"
    requires GetToken([text[p]], source) == AInvalid
    ensures var (token, pos) := ReadToken(text, p, source);
            token == AInvalid ||
            (pos == p + 2 && p + 1 < |text| && text[p + 1] == text[p] && text[p] in "&|=" && token in {AAnd, AOr, ACmp})
  {
    hide GetToken;
    var a, next := text[p], CharAt(text, p + 1);
    BufferOne(text, p);
    if next == '\0' {
      assert Buffer(text, p + 1, 1) == "" && Buffer(text, p + 1, 2) == "";
      assert Buffer(text, p, 2) == [a] && Buffer(text, p, 3) == [a];
    } else {
      BufferOne(text, p + 1);
      assert Buffer(text, p, 2) == [a, next];
      var three := Buffer(text, p, 3);
      assert three == [a, next] + Buffer(text, p + 2, 1);
      assert |three| == 3 || three == [a, next];
      LongTokens(a, next, three, source);
    }
  }

  lemma LongTokens(a: char, b: char, three: string, source: LexState)
    requires source != CaptureString && a !in "'\\\0" && GetToken([a], source) == AInvalid
    requires |three| == 3 ==> three[0] == a
    ensures GetToken([a, b], source) == AInvalid || (a == b && a in "&|=" && GetToken([a, b], source) in {AAnd, AOr, ACmp})
    ensures |three| == 3 ==> GetToken(three, source) == AInvalid
  {
  }

  /** One turn neither opens nor closes a string that the text does not. */
  lemma ClosesTracks(text: string, ok: Config -> bool, c: Config)
    requires !Halted(c.state) && c.state != Invalid
    ensures var d := Turn(text, ok, c);
            || d.state == Error || d.state == Invalid
            || (d.state == End && ('\0' !in text ==> Closes(text, c.pos, c.state == CaptureString)))
            || (!Halted(d.state) &&
                Closes(text, d.pos, d.state == CaptureString) == Closes(text, c.pos, c.state == CaptureString))
  {
    hide ReadToken, NextState;
    var token := ReadToken(text, c.pos, c.state).0;
    if c.pos >= |text| {
      EndOfLine(text, c.pos, c.state);
    }
    if c.state == CaptureString {
      CaptureRow(token);
      if c.pos < |text| {
        StringToken(text, c.pos);
      }
    } else {
      OutsideStates(c.state, token);
      if c.pos < |text| {
        OutsideToken(text, c.pos, c.state);
      }
    }
  }

  /** Outside strings only a quote leads inside, and only the end of the line to END. */
  lemma OutsideStates(q: LexState, token: Alphabet)
    requires q != CaptureString && !Halted(q)
    ensures NextState(q, token) != Error
    ensures NextState(q, token) == CaptureString ==> token == AQuote
    ensures token == AQuote ==> NextState(q, token) in {CaptureString, Invalid}
    ensures NextState(q, token) == End ==> token == AEol
    ensures token == AInvalid ==> NextState(q, token) == Invalid
  {
  }

  lemma {:induction false} ClosedRun(text: string, ok: Config -> bool, c: Config, n: nat)
    requires Halted(c.state) || c.state == Invalid || Closes(text, c.pos, c.state == CaptureString)
    ensures var d := Turns(text, ok, c, n);
            Halted(d.state) || d.state == Invalid || Closes(text, d.pos, d.state == CaptureString)
    decreases n
  {
    hide Turn, Closes;
    if n > 0 {
      if Halted(c.state) || c.state == Invalid {
        EndedTurn(text, ok, c);
      } else {
        ClosesTracks(text, ok, c);
      }
      ClosedRun(text, ok, Turn(text, ok, c), n - 1);
    }
  }

  lemma EndedTurn(text: string, ok: Config -> bool, c: Config)
    requires Halted(c.state) || c.state == Invalid
    ensures Turn(text, ok, c).state == if c.state == End then End else Error
  {
  }

  /** A text that closes its strings halts within |text| + 3 turns, whatever the handlers
      answer; a text without quotes is one. */
  lemma ClosedTextHalts(text: string, ok: Config -> bool)
    requires Closes(text, 0, false)
    ensures Halted(Turns(text, ok, BEGIN, |text| + 3).state)
  {
    hide Turns;
    HaltsOrCaptures(text, ok);
    ClosedRun(text, ok, BEGIN, |text| + 3);
  }

  lemma {:induction false} UnclosedRun(text: string, ok: Config -> bool, c: Config, n: nat)
    requires '\0' !in text && c.state != End
    requires c.state == Error || c.state == Invalid || !Closes(text, c.pos, c.state == CaptureString)
    ensures Turns(text, ok, c, n).state != End
    decreases n
  {
    hide Turn, Closes;
    if n > 0 {
      if c.state == Error || c.state == Invalid {
        EndedTurn(text, ok, c);
      } else {
        ClosesTracks(text, ok, c);
      }
      UnclosedRun(text, ok, Turn(text, ok, c), n - 1);
    }
  }

  /** A text that does not close its strings never reaches END: the run fails or never
      halts. */
  lemma UnclosedNeverEnds(text: string, ok: Config -> bool, n: nat)
    requires '\0' !in text && !Closes(text, 0, false)
    ensures Turns(text, ok, BEGIN, n).state != End
  {
    UnclosedRun(text, ok, BEGIN, n);
  }

  /** A run that never fails halts if and only if the text closes its strings. */
  lemma HaltsIffCloses(text: string, ok: Config -> bool)
    requires '\0' !in text && forall n: nat :: Turns(text, ok, BEGIN, n).state != Error
    ensures Halts(text, ok, BEGIN) <==> Closes(text, 0, false)
  {
    hide Turns;
    if Closes(text, 0, false) {
      ClosedTextHalts(text, ok);
    } else {
      forall n: nat ensures !Halted(Turns(text, ok, BEGIN, n).state) {
        UnclosedNeverEnds(text, ok, n);
      }
    }
  }

  /** parser_dfa_run on an expression that closes its strings: the loop ends, and it ends
      where |text| + 3 turns of the machine end. */
  method Run(text: string, ok: Config -> bool) returns (final: LexState)
    requires Closes(text, 0, false)
    ensures Halted(final)
    ensures final == Turns(text, ok, BEGIN, |text| + 3).state
  {
    hide ReadToken, NextState, Turn, Closes;
    var c := BEGIN;
    ghost var left := |text| + 3;
    while !Halted(c.state)
      invariant left >= 0 && Bounded(text, c, left)
      invariant Halted(c.state) || c.state == Invalid || Closes(text, c.pos, c.state == CaptureString)
      invariant Turns(text, ok, c, left) == Turns(text, ok, BEGIN, |text| + 3)
      decreases left
    {
      if left == 0 {
        PastEndInside(text, c.pos);
        assert false;
      }
      BoundedTurn(text, ok, c, left);
      if c.state == Invalid {
        EndedTurn(text, ok, c);
      } else {
        ClosesTracks(text, ok, c);
      }
      c := Turn(text, ok, c);
      left := left - 1;
    }
    HaltedStays(text, ok, c, left);
    final := c.state;
  }

  lemma PastEndInside(text: string, p: nat)
    requires |text| <= p
    ensures !Closes(text, p, true)
  {
  }
}
