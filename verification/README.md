# zae core logic, modelled and proved

This project models the algorithmic parts of the ZWave automation engine and proves what
they are for. `dafny verify dfyconfig.toml` checks all of it.

| part | modules | what stands behind it |
|---|---|---|
| expression language | `ParserDfa`, `Operators`, `ShuntingYard`, `ExprTree`, `LexerLaws`, `COrder`, `ShuntingLaws`, `RpnMachine`, `ExpressionValues` | tokeniser table and driver, shunting-yard compiler, stack machine |
| hash table | `Primes`, `PrimeSearch`, `HashTable` | trial division on a mod-30 wheel, a table without chains that grows until nothing collides |
| resolver | `Resolver` | device names and ids over the hash table |
| chunked decoder | `ChunkedAutomaton`, `ChunkedDecoder`, `ChunkedEncoding` | the resumable in-place decoder of section 4.1 of RFC 7230 |
| command line | `CliTrie`, `CliNames`, `CliTree`, `CliMatch`, `CliTyping`, `CliWords` | the command tree with its alternatives, and the matcher |
| pumps | `EventPump`, `EventHandlers`, `TimerRuns`, `TimerPump` | double-buffered events and their handlers, timers with swap-removal |
| codecs and list | `Crc32Table`, `Crc32`, `Base64`, `LinkedStack` | CRC-32 by table, Base64 (section 4 of RFC 4648), the linked list under everything |

Code that works in place is a class or a loop here too, and each such method is tied to a
function of the old state; the laws are then proved about that function. Memory that the
original leaves to `malloc` appears as object identity, as indices into an arena (`CliTree`,
where node 0 is the root) or as address numbers (`EventHandlers`).

The main theorems, one per part:

- `ParserDfa.HaltsIffNoOpenString`: exactly when the tokeniser's driver ends.
- `RpnMachine.CompileThenExecute`: writing any tree down with as few parentheses as the
  operator order allows, compiling the text and executing the program evaluates the tree; `ExpressionValues` says
  what the operators compute.
  `ShuntingLaws` says what holds on every lexeme stream, well formed or not.
- `PrimeSearch.NextPrime` and `HashTable.Table.InsertData`: the search for a size finds the
  least larger prime, and insertion is map update however often the table has to grow.
- `Resolver.RunKeepsConsistent` and `Resolver.AddReplaces`: names and ids stay a bijection.
- `ChunkedDecoder.Decoder.Decode` with `ChunkedAutomaton.AnySplitting` and
  `ChunkedEncoding.DecodeMessage`: the in-place decoder is the byte automaton, cutting the
  stream does not matter, and the body comes back.
- `CliTrie.TreeContents`, `CliNames.EveryAlternativeIsThere` and
  `CliWords.FittingLineRunsIntroducer`: what the tree holds after any list of commands, and
  that typing a line for a path runs the command that introduced it.
- `EventPump.RunConserves` and `EventPump.EverySentIsDispatched`: over every interleaving of
  senders with the poller nothing is lost, doubled or reordered.
- `TimerRuns.EveryRunIsSound`: dueness over every run of polls, handlers, and calls between
  the turns of a poll.

## Where the code differs from what one would expect

The model follows the code. Each of these is stated as a lemma or visible in a contract.

- command_parser.h:29 calls the operator precedence that of C. The enum order decides, in
  which every operator is a level of its own: minus binds tighter than plus
  (`ExprTree.DashBindsTighterThanPlus`) and < tighter than >. The exact condition under which
  a text is read as in C is `COrder.ReadsAsCIffAgrees`.
- command_parser.c:441 exempts unary minus from left grouping; the test at line 448 does not.
  A unary minus arises only right behind a left parenthesis (`ExprTree.UnaryMinusIff`), so
  the tree writer puts parentheses around a negation anywhere else.
- A left parenthesis that is never closed is dropped and the text compiles; a comma outside
  parentheses is accepted right before a number, because the number's handler ignores the
  result. A right parenthesis too many never is: the table wants something between it and a
  number. `ShuntingLaws.CompilesIff` gives the exact condition.
- A line feed or carriage return is a space for the tokeniser: `isspace` is asked first
  (`ParserDfa.CharToken`).
- A string without its closing quote keeps the driver reading for ever, unless the text
  ends in a backslash that has no character to take with it (`ParserDfa.StaysIffOpen`,
  `ParserDfa.OpenQuoteNeverHalts`, `ParserDfa.LoneBackslash`). The exact condition for a whole text is
  `ParserDfa.HaltsIffNoOpenString`; a scan of the text that suffices is `ParserDfa.Closes`.
- `is_prime` is right on numbers above 1 coprime to 30; it calls 0, 1 and 4 prime. For every
  number `Primes.AnswerRightIff` says whether the answer is right. `next_prime` only asks
  about wheel numbers above 1.
- `variant_hash_remove` does not compare keys (`HashTable.RemovesKeyIff`).
- The search does not go below a LINE node: the words behind one that LINE has taken are
  matched where LINE itself was (`CliWords.WordLeads`). On two booleans > means that they differ
  (`ExpressionValues.TruthLaws`).
- A command that ends on a path where a node already stood gets no final node
  there (`CliTrie.TreeContents`); an empty word is skipped by the matcher (`CliTyping.KeywordPathMatches`).
- A handler registered for an event while that event is dispatched is called for it as well
  (`EventHandlers.ActiveAreCalled`). Unregistering twice before an event comes flags the same handler twice
  (`EventHandlers.UnregisterTwice`). The event's free function is called only when its event
  id ever had a handler (`EventHandlers.DeliveredCalls`).
- Removing a timer looks through the free slots too, which carry id 0
  (`TimerRuns.RemovingTheDead`); a single-shot timer cannot restart itself
  (`TimerRuns.SelfRestartIsLost`; `TimerRuns.HandlerStartTakesHoldIff` says which starts made
  by handlers take hold).

## Model

| member | source | states |
|---|---|---|
| ParserDfa.HaltsOrCaptures | parser_dfa.c:345-387 | from the start state every text, with any handler answers, reaches END or ERROR within length + 3 turns, or is by then past the terminator inside a quoted string |
| ParserDfa.StringToken | parser_dfa.c:188-326 | inside a string a quote closes, a backslash takes the next character with it and fails in front of the terminator, any other character is taken alone |
| ParserDfa.CharToken | parser_dfa.c:190-233 | apart from a backslash, a single character is the end of the line exactly when it is NUL, so line feeds and returns are not, and a quote exactly when it is the quote |
| ParserDfa.StaysIffOpen | parser_dfa.c:130-147 | inside a string the run stays for ever if and only if the text behind the quote is open: no closing quote, no backslash at the end |
| ParserDfa.OpenQuoteNeverHalts | parser_dfa.c:345-387 | every text that is a quote and an open tail keeps the loop going for ever, whatever the handlers answer |
| ParserDfa.OpenLetters | parser_dfa.c:345-387 | the text 'abc without its closing quote never halts |
| ParserDfa.LoneBackslash | parser_dfa.c:242-271 | a quote and a lone backslash end in ERROR |
| ParserDfa.HaltsIffNoOpenString | parser_dfa.c:345-387 | for any handler answers, the loop ends if and only if it begins no string whose text is open |
| ParserDfa.ClosedTextHalts | parser_dfa.c:345-387 | a text that closes its strings, as a scan of the text alone tells, halts within length + 3 turns, whatever the handlers answer |
| ParserDfa.NoQuoteCloses | parser_dfa.c:345-387 | a text without quotes is such a text |
| ParserDfa.UnclosedNeverEnds | parser_dfa.c:345-387 | a text that does not close its strings never reaches END: the run fails or never halts |
| ParserDfa.HaltsIffCloses | parser_dfa.c:345-387 | a run in which nothing fails halts if and only if the text closes its strings |
| ParserDfa.ClosesTracks | parser_dfa.c:167-326 | no turn opens or closes a string that the text does not |
| ParserDfa.Run | parser_dfa.c:345-387 | on a text that closes its strings the loop terminates, in END or ERROR, where length + 3 turns of the machine end |
| ParserDfa.BoundedTurn | parser_dfa.c:274-326 | each turn keeps the measure of unread input: END, ERROR, a string open past the terminator, or one turn fewer to go |
| LexerLaws.OneCharacter | parser_dfa.c:190-272 | what each single character is outside strings, class by class, in both directions |
| LexerLaws.TwoCharacters | parser_dfa.c:242-260 | a doubled ampersand, bar or equals sign is one lexeme of two characters |
| LexerLaws.ReadableIff | parser_dfa.c:6-165 | which lexemes a state reads: an operand behind operators, an operator, closing parenthesis, comma or end behind operands; where strings may begin |
| LexerLaws.Leads | parser_dfa.c:6-165 | a lexeme leads to its own state, but digits, dots and spaces stay in a word, dots in a number, and a dash behind a left parenthesis is unary |
| LexerLaws.WordReachesEnd | parser_dfa.c:345-387 | every word of letters, digits, dots and spaces is read whole and reaches END in length + 1 turns |
| LexerLaws.NumberReachesEnd | parser_dfa.c:345-387 | so is every number of digits and dots |
| LexerLaws.FailureEndsRun | command_parser.c:144-302 | a turn ends in ERROR exactly when the waiting word, right parenthesis or comma fails, no number follows and the word does not go on |
| Operators.ComparisonLaws | operator.c:69-104 | on two integers, two strings or two booleans == is equality; on integers and strings < is > turned round and both fail exactly for equals; on booleans < never holds |
| ShuntingYard.Parser.ProcessOperatorToken | command_parser.c:442-463 | the loop leaves stack and queue as the popping relation says: what yields moves in order, then the operator is pushed |
| ShuntingYard.Parser.ProcessCommaToken | command_parser.c:470-491 | pops to the nearest left parenthesis, which stays; fails exactly when there is none, with everything moved |
| ShuntingYard.Parser.ProcessRightParenthesis | command_parser.c:511-547 | pops to the nearest left parenthesis, drops it and moves a function below it; fails exactly when there is none |
| ShuntingYard.Parser.Process | command_parser.c:144-219 | the work owed for the lexeme just left, as a step on stack and queue with its success flag |
| ShuntingYard.Parser.Flush | command_parser.c:386-406 | the rest of the stack reaches the queue in order, unmatched left parentheses are dropped, the stack is empty |
| ShuntingYard.Parser.Compile | command_parser.c:415-430 | the driver, which works one lexeme late, succeeds and fills the queue exactly as the specification of compilation says |
| ShuntingYard.RemainingStep | command_parser.c:246-302 | one lexeme read: the work waiting is done now, the new lexeme's work waits, and a failure is forgiven when a number follows |
| ExprTree.FeedRender | command_parser.c:442-548 | feeding a rendered operand in any context leaves the stack below it untouched, its last operators waiting, and stack and queue together in postorder |
| ExprTree.FeedBinary | command_parser.c:442-463 | the induction step for a binary operator: equal and tighter operators to the left leave before it, looser ones stay |
| ExprTree.FeedApplication | command_parser.c:501-548 | the induction step for a call: arguments in order, then the function, with nothing left on the stack |
| ExprTree.WrittenCompiles | command_parser.c:386-548 | every expression tree, written with parentheses only where the enum order, left grouping or a unary minus asks for them, compiles to exactly its postorder |
| ExprTree.DashBindsTighterThanPlus | operator.h:10-24 | a + b - c compiles to the postorder of a + (b - c), for all numbers |
| COrder.LevelsOfC | command_parser.h:29-29 | the six levels of these operators in C |
| COrder.CWrittenCompiles | command_parser.c:442-548 | every tree written with the parentheses that C needs compiles to the postorder of the tree that the enum order reads in that text: operators take what binds no looser at the right end of what stands before them |
| COrder.ReadsAsCIffAgrees | command_parser.h:29-29 | a text written for C is read as C reads it if and only if no minus has an unparenthesised plus, and no < an unparenthesised >, as its left operand |
| COrder.AttachText | operator.h:10-24 | attaching an operator to the right end of a tree only puts its text behind the tree's |
| COrder.ReadingText | command_parser.c:442-463 | the tree that the enum order reads has exactly the text written for C, needs no further parentheses and keeps its level |
| COrder.ReadingAgrees | operator.h:10-24 | at any place the tree read has the operand's postorder if and only if the orders agree inside it |
| ExprTree.UnaryMinusIff | parser_dfa.c:56-63 | a dash is a unary minus if and only if it stands right behind a left parenthesis |
| ShuntingLaws.PerformKeepsOrder | command_parser.c:442-548 | on any stream of actions, within a parenthesis segment operators grow strictly looser from top to bottom and functions lie only on top |
| ShuntingLaws.NothingLost | command_parser.c:386-548 | a compiled program holds each accepted operand, operator and function exactly once, with the operands in written order |
| ShuntingLaws.CompilesIff | command_parser.c:264-302 | a lexeme stream compiles if and only if the table has a way through, no right parenthesis stands at depth zero, and no comma does except right before a number; open parentheses need not be closed |
| ShuntingLaws.ResolvedHasNoNumberBehindClose | parser_dfa.c:65-76 | in what the table lets through no number is read right behind a right parenthesis |
| ShuntingLaws.TouchingOperandsRefused | parser_dfa.c:6-165 | a word followed at once by a word, name or number, and a number by a number, is no lexeme stream |
| ShuntingLaws.PerformsIffAdmissible | command_parser.c:470-548 | on any action list, from the table or not, the stack actions succeed if and only if no comma or right parenthesis stands at depth zero, except right before a number |
| ShuntingLaws.StrayCommaBeforeNumber | command_parser.c:264-271 | a comma outside parentheses is refused before a word and accepted before a number |
| RpnMachine.Machine.Eval | command_parser.c:826-894 | pops the right number of arguments and hands them over in written order; fails and changes nothing on too few values or more than four arguments |
| RpnMachine.Machine.Execute | command_parser.c:786-824 | the loop gives a result exactly when the specified run ends with one value on the stack |
| RpnMachine.RanGrows | command_parser.c:786-894 | a NULL result can only leave fewer values than the program's balance, never more |
| RpnMachine.RunsTree | command_parser.c:786-894 | the postorder of a tree pushes exactly the tree's value on any stack, or cannot end with the right number of values when the tree has none |
| RpnMachine.ExecutesTree | command_parser.c:786-894 | executing the postorder equals direct recursive evaluation, with an error exactly when evaluation has no value |
| RpnMachine.CompileThenExecute | command_parser.c:386-894 | writing down any tree, compiling and executing gives the tree's recursive value |
| ExpressionValues.DifferenceOfLiterals | operator.c:142-152 | compiling and executing a - b gives the integer a - b, for all literals |
| ExpressionValues.SumOfLiterals | operator.c:130-140 | a + b gives the sum, less 2^32 when it leaves the 32 bits |
| ExpressionValues.NegatedLiteral | operator.c:154-166 | (-n) gives the negated integer |
| ExpressionValues.ComparedLiterals | operator.c:69-104 | <, > and == of literals hold exactly when the numbers compare so |
| ExpressionValues.JoinedTruths | operator.c:106-128 | conjunction and disjunction of two truth values are true exactly when both, at least one is |
| ExpressionValues.IntegerLaws | libZaeUtil/variant.c:447-469 | on any integers, sum, difference and negation are the 32-bit number that differs from the exact one by a multiple of 2^32 |
| ExpressionValues.IntegersCompared | libZaeUtil/variant.c:64-79 | on any integers the comparisons are those of the numbers |
| ExpressionValues.JoinedTexts | libZaeUtil/variant.c:420-440 | plus with a text on either side is the printed left operand followed by the right one |
| ExpressionValues.TextOrder | libZaeUtil/variant.c:87-105 | texts are ordered by their first difference, a beginning before what it begins |
| ExpressionValues.TruthLaws | libZaeUtil/variant.c:42-45 | all operators on two booleans; > means that they differ |
| ExpressionValues.MixedComparison | libZaeUtil/variant.c:64-105 | an integer or a text is less than anything of another type |
| ExpressionValues.NothingElseAdds | libZaeUtil/variant.c:442-475 | other types have no sum or difference |
| ExpressionValues.RankIsPlace | operator.h:10-24 | the order of the operators is their order in the enum |
| ExpressionValues.MeaningsAre | command_parser.c:843-882 | a call's arguments are the values of its operands in written order, and it has none when one of them has none |
| Primes.WheelDecidesPrime | libZaeUtil/hash.c:37-109 | for x above 1 and coprime to 30, having no wheel divisor from 7 up to the root is the same as being prime |
| Primes.OffTheWheel | libZaeUtil/hash.c:37-109 | off the wheel, 0 included, is_prime answers rightly if and only if x is 2, 3 or 5, or x is above 0 and what is left of x without its factors 2, 3 and 5 is above 1 and either not prime or no larger than the part divided out; it calls 4 prime |
| Primes.AnswerRightIff | libZaeUtil/hash.c:37-109 | for every x: the answer is right if and only if x is above 1 and on the wheel, or 2, 3, 5, or what is left of it without 2, 3 and 5 is above 1 and either not prime or no larger than the part divided out; so it is wrong at 0 and 1 |
| Primes.NoDivisorOffTheWheel | libZaeUtil/hash.c:37-109 | off the wheel the trial division finds nothing exactly when x is 0, nothing is left of x, or a prime larger than the part divided out |
| Primes.WheelDivisorOfRough | libZaeUtil/hash.c:50-107 | a wheel number divides x if and only if it divides what is left of x without 2, 3 and 5 |
| Primes.PrimeAbove | libZaeUtil/hash.c:145-153 | above every number there is a prime, so the search ends |
| PrimeSearch.WheelStep | libZaeUtil/hash.c:50-107 | the increments 6,4,2,4,2,4,6,2 lead from one wheel number to the next and skip none |
| PrimeSearch.TrialEnds | libZaeUtil/hash.c:52-56 | each exit of a trial means what is returned: stopping at a quotient below the divisor is sound |
| PrimeSearch.IsPrime | libZaeUtil/hash.c:37-109 | true exactly when no wheel number from 7 up to the root divides x; on x above 1 and coprime to 30, exactly for primes; terminates for every x |
| PrimeSearch.FirstCandidate | libZaeUtil/hash.c:132-144 | the first candidate lies on or before every larger prime, also when no index exceeds the remainder and the search restarts at index 0 |
| PrimeSearch.NotYet | libZaeUtil/hash.c:145-153 | a rejected candidate's successor still lies on or before every prime above n |
| PrimeSearch.NextPrime | libZaeUtil/hash.c:111-155 | terminates for every n and returns the least prime strictly greater than n |
| HashTable.PutUpdatesMap | libZaeUtil/hash.c:292-296 | filling a free slot keeps every key in its place and updates the map at that key only |
| HashTable.ClearedRemovesOccupant | libZaeUtil/hash.c:318-333 | removal takes out the key that occupies the slot, whatever it is, and nothing else |
| HashTable.RemovesKeyIff | libZaeUtil/hash.c:318-333 | removal is removal of the given key if and only if the key is present or its slot empty |
| HashTable.LargeSizeFits | libZaeUtil/hash.c:258-280 | distinct keys cannot collide at a size above all keys, so the retry loop ends |
| HashTable.LargeTableHasRoom | libZaeUtil/hash.c:244-289 | a different key can only be in the way while the size is below 2^32, so the recursive insert ends |
| HashTable.PlaceItem | libZaeUtil/hash.c:187-209 | one visit of the copy either detects a true collision or keeps the copy holding exactly the visited nodes |
| HashTable.HoldsAll | libZaeUtil/hash.c:268-287 | a finished copy stands for the same map |
| HashTable.ItemsDistinct | libZaeUtil/hash.c:335-346 | a walk over the table meets no key twice |
| HashTable.Table.Get | libZaeUtil/hash.c:305-316 | the map's value for the key, or none |
| HashTable.Table.Remove | libZaeUtil/hash.c:318-333 | clears the slot in place, keeps the count equal to the occupied slots, takes the occupant out of the map |
| HashTable.Table.ForEach | libZaeUtil/hash.c:335-346 | visits every node, in slot order, once; counting down never ends the walk before all are seen |
| HashTable.Table.NextIndex | libZaeUtil/hash.c:402-416 | the next occupied index with none skipped, or the end marker when there is none |
| HashTable.Table.CopyItems | libZaeUtil/hash.c:187-209 | asks for another size if and only if two nodes collide at this one; otherwise the copy stands for the same map with the same count |
| HashTable.Table.Grow | libZaeUtil/hash.c:254-287 | terminates with a prime size more than double the old one, the map unchanged |
| HashTable.Table.InsertData | libZaeUtil/hash.c:240-297 | insertion is map update after any number of growths, and terminates; the array is kept when the slot is free or holds the key |
| Resolver.AddKeepsConsistent | libZaeUtil/resolver.c:141-171 | an add keeps every record under its name's checksum and ids unshared |
| Resolver.LookupsAreInverse | libZaeUtil/resolver.c:76-139 | name-to-record and id-to-name lookups are mutually inverse, and an id has one name |
| Resolver.AddReplaces | libZaeUtil/resolver.c:141-171 | an add is: old minus that name minus that id plus the new pair, if and only if no record with another name and another id lies under the name's checksum |
| Resolver.RemoveTakesOut | libZaeUtil/resolver.c:185-189 | taking out what lies under a name's checksum takes out that name and nothing else if and only if no other name lies there |
| Resolver.InjectiveNeverClashes | libZaeUtil/resolver.c:141-189 | with the checksum injective on the names in use nothing else ever lies there |
| Resolver.RunKeepsConsistent | libZaeUtil/resolver.c:141-189 | over every run of adds and of removals, each of which may take out any keys, no two records share a node, instance and command triple |
| Resolver.Run | libZaeUtil/resolver.c:141-189 | a run of add and remove requests on the table: each makes its change, a removal taking out the name's key when present and at most one other when not, and the bijection holds throughout |
| Resolver.Handle.NameFromId | libZaeUtil/resolver.c:76-99 | the iterator walk finds the name of the record with the id, and reports none only when there is none |
| Resolver.Handle.GetDeviceRecord | libZaeUtil/resolver.c:111-139 | the record under the name's checksum; a parent exactly when the record has a command and a node whose own record exists; the recursion ends |
| Resolver.Handle.AddEntry | libZaeUtil/resolver.c:141-171 | the table becomes the specified one and stays consistent, by either branch; the recursion ends after one step |
| Resolver.Handle.RemoveEntry | libZaeUtil/resolver.c:185-189 | keeps consistency always; the record in the checksum's slot goes, whichever it is, and that is exactly the name's when the checksum is present |
| Resolver.Handle.ResolveId | libZaeUtil/resolver.c:215-224 | a record with this id exactly when one exists |
| ChunkedAutomaton.DigitsByPlace | picohttpparser.c:485-496 | a hexadecimal digit is worth its place in either alphabet, and nothing else is a digit |
| ChunkedAutomaton.RunSplits | picohttpparser.c:498-611 | running on a + b is running on a and then, if incomplete, on b from the status reached |
| ChunkedAutomaton.AnySplitting | picohttpparser.c:498-611 | however a stream is cut into buffers, the calls together give the output, verdict, status and rest of one call |
| ChunkedAutomaton.AccumulateExact | picohttpparser.c:517-522 | the multiply-add of a valid status stays below 16^(count + 1), at most 2^64, so it never wraps |
| ChunkedAutomaton.RunKeepsValid | picohttpparser.c:498-611 | along every run the bytes left are below 16^count in the size state, positive in the data state and zero behind the data |
| ChunkedDecoder.MoveDown | picohttpparser.c:548-550 | an overlapping move to a lower address gives the buffer of a true copy |
| ChunkedDecoder.Decoder.ReadSize | picohttpparser.c:505-525 | the size loop follows the byte automaton without handing out a byte, and keeps the status valid |
| ChunkedDecoder.Decoder.ReadExt | picohttpparser.c:527-544 | the same for the extension and the line feed behind it |
| ChunkedDecoder.Decoder.ReadData | picohttpparser.c:546-562 | moving the data down in one go equals emitting it byte by byte, also when the buffer ends first |
| ChunkedDecoder.Decoder.ReadCrlf | picohttpparser.c:564-577 | the same for the line end behind the data |
| ChunkedDecoder.Decoder.ReadTrailerHead | picohttpparser.c:578-587 | the same for the start of a trailer line |
| ChunkedDecoder.Decoder.ReadTrailerMiddle | picohttpparser.c:589-598 | the same for the rest of a trailer line |
| ChunkedDecoder.Decoder.DecodeBody | picohttpparser.c:503-602 | the loop terminates, gathers the automaton's output at the front of the buffer and leaves unread bytes untouched |
| ChunkedDecoder.Decoder.Decode | picohttpparser.c:498-611 | return code, decoder fields, size and buffer equal the automaton's verdict, status, output and rest; bytes past the input stay |
| ChunkedEncoding.RunDigits | picohttpparser.c:505-523 | up to sixteen digits, either case and leading zeros allowed, are read as the number they write |
| ChunkedEncoding.RunChunk | picohttpparser.c:503-577 | one chunk with any extension hands out its data and returns to the start |
| ChunkedEncoding.RunTrailer | picohttpparser.c:578-598 | a trailer of lines none of which is made of returns only is read up to its empty line, leaving what follows |
| ChunkedEncoding.RoundTrip | picohttpparser.c:498-611 | decoding any chunked message followed by any bytes gives the body and leaves exactly those bytes, or the trailer and those bytes without trailer reading |
| ChunkedEncoding.NoDigitRefused | picohttpparser.c:510-514 | a chunk that begins with no digit is malformed, at that byte |
| ChunkedEncoding.LongSizeRefused | picohttpparser.c:517-520 | a seventeenth digit is malformed, at that digit |
| ChunkedEncoding.GarbageBehindDataRefused | picohttpparser.c:565-574 | behind the data anything but returns and a line feed is malformed, at that byte |
| ChunkedEncoding.ProperBeginningIncomplete | picohttpparser.c:498-611 | every proper beginning of a message is incomplete |
| ChunkedEncoding.DecodeStream | picohttpparser.c:498-611 | the in-place decoder called on one buffer after the other gives body, verdict and, when complete, the rest of the automaton on the whole stream |
| ChunkedEncoding.DecodeMessage | picohttpparser.c:498-611 | any chunked message with anything behind it, arriving in any buffers, is decoded to its body by the in-place decoder and leaves what followed |
| ChunkedEncoding.PlainEncodingExists | picohttpparser.c:498-611 | every division of a body into nonempty parts has a well-formed encoding whose body is their concatenation |
| CliTree.CommandTree.FindNode | libZaeUtil/cli.c:165-177 | finds the child of that name exactly when the tree has its path |
| CliTree.AppendKeepsNamed | libZaeUtil/cli.c:321-327 | a new node keeps nodes and paths in one-to-one correspondence |
| CliTree.AppendKeepsLinked | libZaeUtil/cli.c:321-327 | a new node keeps the children lists equal to the nodes one step down, each listed once |
| CliTree.CommandTree.Descend | libZaeUtil/cli.c:316-343 | goes to the named child, appending it and its final node only when it was not there |
| CliTree.CommandTree.ProcessVariadicArgument | libZaeUtil/cli.c:182-288 | every alternative is installed with the whole rest of the command from the same root; the mutual recursion ends |
| CliTree.CommandTree.Install | libZaeUtil/cli.c:301-345 | the loop over the parts adds to the tree exactly what the specification adds, by either branch |
| CliTree.CommandTree.CreateTree | libZaeUtil/cli.c:294-348 | the tree of nodes stands for the specified map after installing the command |
| CliTree.CommandTree.AppendToNode | libZaeUtil/cli.c:399-414 | after a list of commands the tree is that of all commands so far, in order |
| CliTree.CommandTree.InstallNode | libZaeUtil/cli.c:355-397 | a new node's tree is that of its commands and, when it has a parent, the leaving command last |
| CliNames.PlainToken | libZaeUtil/cli.c:187-187 | a part without a bar is one name, an empty one none |
| CliNames.TokensJoin | libZaeUtil/cli.c:187-274 | the names of a part with a bar are those before the bar, then those behind it |
| CliNames.TokensOfBarred | libZaeUtil/cli.c:182-288 | names written with bars between them are read back, all and in order |
| CliNames.EveryAlternativeIsThere | libZaeUtil/cli.c:182-288 | after any command list every choice of one name for each of a command's first parts is a path of the tree |
| CliNames.TreeOfOne | libZaeUtil/cli.c:294-348 | the tree of one command: its paths are exactly the beginnings of the choices and the final nodes behind the whole ones, all with that command |
| CliNames.KindsOfNames | libZaeUtil/cli.c:28-76 | which names are words, lines, characters, numbers and lists |
| CliNames.RangesOfLists | libZaeUtil/cli.c:56-71 | a list with a range of two numbers is a list of numbers |
| CliTrie.GraftedIs | libZaeUtil/cli.c:182-348 | installing at any base adds exactly the choices' prefixes and a final node below each expansion that was no node before, and changes nothing else |
| CliTrie.InstalledIs | libZaeUtil/cli.c:294-348 | what is at any path after one more command, in closed form |
| CliTrie.TreeContents | libZaeUtil/cli.c:294-414 | after any command list: the tree is prefix closed, has a node at exactly the beginnings of choices and the introduced ends, final exactly at the latter, each carrying the command that introduced it |
| CliTrie.SpellsIsPrefix | libZaeUtil/cli.c:182-288 | when every part has an alternative, the beginnings of choices are the nonempty prefixes of the expansions |
| CliMatch.FindMatches | libZaeUtil/cli.c:471-591 | the loop over the children collects and decides as specified and moves the root to the last matched node that is no LINE node |
| CliMatch.GetCustomCommand | libZaeUtil/cli.c:674-835 | status and final node of the line, by all branches: one match, none, several with or without an exact keyword |
| CliWords.VisitMeans | libZaeUtil/cli.c:486-579 | which nodes take a typed word: WORD, LINE and CHAR any, a keyword its own beginnings, number nodes what they accept; and which of them end the search |
| CliWords.UnknownWord | libZaeUtil/cli.c:779-783 | a word that no node takes ends in no match |
| CliWords.AmbiguousWord | libZaeUtil/cli.c:784-827 | a word that several nodes take, none named like it, ends in a partial match |
| CliWords.WordLeads | libZaeUtil/cli.c:471-591 | a full keyword, or a word that a single node takes, leads to that node; the search goes on below it, but below the same node as before when it is LINE |
| CliWords.FittingLineMatches | libZaeUtil/cli.c:674-835 | a line whose words lead along a command's path, value nodes and abbreviated keywords included, is a full match at its final node; a LINE at the end takes all further words |
| CliWords.FittingLineRunsIntroducer | libZaeUtil/cli.c:674-835 | the node found carries the command that introduced the path |
| CliWords.InstallThenTypeWords | libZaeUtil/cli.c:294-835 | install, type such a line, and the introducing command is found |
| CliWords.UserWord | libZaeUtil/cli.c:552-579 | with the command user WORD alone, any name behind user, or behind a beginning of it, is a full match |
| CliTyping.ScanExact | libZaeUtil/cli.c:552-579 | an exact keyword is the only match, wherever it stands among its siblings |
| CliTyping.WordsDepth | libZaeUtil/cli.c:471-835 | matching never goes deeper than the number of nonempty words, the final node one deeper |
| CliTyping.KeywordPathMatches | libZaeUtil/cli.c:674-835 | typing a keyword path is a full match at that path's final node, whatever siblings are installed, if and only if no part of it is empty |
| CliTyping.TypingRunsIntroducer | libZaeUtil/cli.c:674-835 | the node found carries the command that introduced the path |
| CliTyping.InstallThenType | libZaeUtil/cli.c:294-835 | install, type, and the introducing command is found |
| EventPump.StepConserves | libZaeUtil/event_pump.c:82-231 | every locked step keeps: accepted = dispatched, then the rest of the current queue, then the pending queue |
| EventPump.RunConserves | libZaeUtil/event_pump.c:82-231 | the same over every interleaving of senders with the poller's steps |
| EventPump.DispatchIsFifo | libZaeUtil/event_pump.c:181-231 | in every interleaving the dispatched events are a prefix of the accepted ones: in order, each at most once |
| EventPump.DispatchedByNextPoll | libZaeUtil/event_pump.c:181-231 | what was accepted when two polls lie ahead to their end has been dispatched by then |
| EventPump.AcceptedAreKept | libZaeUtil/event_pump.c:82-97 | over every interleaving exactly the events sent while fewer than 1000 were pending are accepted, in order, counted from sends and exchanges alone |
| EventPump.FewAreKept | libZaeUtil/event_pump.c:82-97 | with no more than 1000 sends between exchanges these are all events sent |
| EventPump.EverySentIsDispatched | libZaeUtil/event_pump.c:82-231 | and every event sent has been dispatched, in order of sending, when two more polls have ended |
| EventPump.Pump.SendEvent | libZaeUtil/event_pump.c:82-97 | the event is put behind the pending and the accepted ones when fewer than 1000 are pending, else dropped |
| EventPump.Pump.SwapQueues | libZaeUtil/event_pump.c:223-230 | exchanging the queue pointers is the specified step |
| EventPump.Pump.DispatchAll | libZaeUtil/event_pump.c:188-218 | exactly the events of the current queue are dispatched, in order, whatever the handlers send |
| EventPump.Pump.Poll | libZaeUtil/event_pump.c:181-231 | a poll dispatches the current queue; all other accepted events, the handlers' own among them, are current afterwards |
| EventHandlers.PurgeKeepsActive | libZaeUtil/event_pump.c:153-179 | a purge changes nothing for any later event, at any limit |
| EventHandlers.UnregisterTakesEffectIff | libZaeUtil/event_pump.c:127-151 | unregistering takes one active handler out if and only if the first match is not flagged already, and only that one |
| EventHandlers.UnregisterTwice | libZaeUtil/event_pump.c:127-151 | a second call before a purge changes nothing, so a second registration of the pair stays |
| EventHandlers.WithoutMarked | libZaeUtil/event_pump.c:165-177 | removing the gathered addresses one by one is dropping the first hundred flagged handlers, order kept |
| EventHandlers.GatherMarked | libZaeUtil/event_pump.c:165-172 | the loop gathers the first hundred flagged handlers |
| EventHandlers.ActiveAreCalled | libZaeUtil/event_pump.c:199-207 | whatever handlers register and unregister while they are called, every handler still active at the end of the walk was called, late ones for the same event included |
| EventHandlers.CalledOnce | libZaeUtil/event_pump.c:199-207 | under the same requests no handler is called twice by one event |
| EventHandlers.FlaggedIsNotCalled | libZaeUtil/event_pump.c:199-207 | a handler flagged before its turn, during the walk as well, is not called |
| EventHandlers.DeliveredCalls | libZaeUtil/event_pump.c:195-216 | the three together with the purge; without requests exactly the active handlers are called, in order; the event is freed exactly when it has a list |
| EventHandlers.RegisteredIsActive | libZaeUtil/event_pump.c:99-125 | a registered handler is active behind those that already were; other events are untouched by both calls |
| EventHandlers.PurgeLeaves | libZaeUtil/event_pump.c:158-177 | a purge takes out as many flagged handlers as it remembers |
| EventHandlers.PurgeOfHundred | libZaeUtil/event_pump.c:158-177 | with no more than a hundred flagged it leaves exactly the active ones |
| EventHandlers.HandlerTable.Register | libZaeUtil/event_pump.c:99-125 | appends to the event's list, making one when there is none; other events unchanged |
| EventHandlers.HandlerTable.Unregister | libZaeUtil/event_pump.c:127-151 | flags the first match of that event only |
| EventHandlers.HandlerTable.PurgeHandlers | libZaeUtil/event_pump.c:153-179 | the two loops leave the specified list and keep addresses distinct |
| EventHandlers.HandlerTable.Deliver | libZaeUtil/event_pump.c:195-216 | calls, freeing and the whole registry afterwards are the specified ones, for any requests that the handlers make |
| EventHandlers.HandlerTable.CallHandlers | libZaeUtil/event_pump.c:199-207 | the walk over the live list, which handlers may lengthen and flag, ends and calls what is specified |
| TimerRuns.StepKeeps | libZaeUtil/timer_pump.c:55-202 | every step keeps the timer accounts and the dueness of all firings |
| TimerRuns.RunKeeps | libZaeUtil/timer_pump.c:55-202 | the same over every run in which only live ids are removed |
| TimerRuns.EveryRunIsSound | libZaeUtil/timer_pump.c:55-202 | from an empty table: live ids stay distinct under swap-removal; each firing is of a timer created with that timeout, has a start as the latest start or stop before it, comes a full timeout after the last start or firing, a single shot's after a start, and never after a removal |
| TimerRuns.FiresExactlyWhenDue | libZaeUtil/timer_pump.c:122-149 | a timer fires at its visit if and only if it was started and neither stopped nor at its end since, the timeout it was created with is over since it was armed, it was not removed, and time has moved since it was looked at |
| TimerRuns.CallsAreLogged | libZaeUtil/timer_pump.c:55-202 | what every call enters in the history: an add its timer with milliseconds as nanoseconds, while there are fewer than 128; a start, stop or removal of a live timer itself, of any other nothing |
| TimerRuns.NoFiringWhileStopped | libZaeUtil/timer_pump.c:128-197 | over every run, behind the stop of a live timer no firing of it comes without a start in between |
| TimerRuns.PurgeTakesOut | libZaeUtil/timer_pump.c:103-115 | a purge takes out exactly the flagged timer |
| TimerRuns.RemovedIsPurged | libZaeUtil/timer_pump.c:131-148 | a removed timer is gone after the visit at which it would have fired |
| TimerRuns.RemovingTheDead | libZaeUtil/timer_pump.c:84-101 | removing an id that is not live changes nothing if and only if the id is not 0 or the table is full; else the next timer added is born removed |
| TimerRuns.HandlerStartTakesHoldIff | libZaeUtil/timer_pump.c:133-147 | a timer started by a handler runs after the turn if and only if it is not the handler's own with a single shot or a pending removal |
| TimerRuns.SelfRestartIsLost | libZaeUtil/timer_pump.c:136-140 | a single-shot timer restarted by its own handler ends up stopped |
| TimerPump.PolledKeeps | libZaeUtil/timer_pump.c:117-151 | a whole poll keeps the timer accounts and the dueness of all firings when its handlers remove live timers only |
| TimerPump.Pump.AddTimeout | libZaeUtil/timer_pump.c:55-82 | the specified step on the table; the id returned is live, or -1 when the table is full |
| TimerPump.Pump.RemoveTimeout | libZaeUtil/timer_pump.c:84-101 | flags the first slot with the id among all slots, for any id; the invariant is kept when the id is live |
| TimerPump.Pump.PurgeTimers | libZaeUtil/timer_pump.c:103-115 | a flagged slot takes the last timer and the last slot is zeroed |
| TimerPump.Pump.Start | libZaeUtil/timer_pump.c:153-179 | the specified step: the live timer with the id is armed with its full timeout |
| TimerPump.Pump.Stop | libZaeUtil/timer_pump.c:181-202 | the specified step: the live timer with the id no longer runs |
| TimerPump.Pump.VisitSlot | libZaeUtil/timer_pump.c:124-136 | one turn of the loop up to the handler call is the specified step |
| TimerPump.Pump.FinishSlot | libZaeUtil/timer_pump.c:137-147 | the turn's end after the handler is the specified step, its purge included |
| TimerPump.Pump.Poll | libZaeUtil/timer_pump.c:117-151 | the loop, with handlers that add, start, stop or remove any timers in between, ends in the specified state, and keeps the invariant when every removal is of a live timer |
| Crc32Table.TableIsSteps | libZaeUtil/crc32.c:44-88 | each of the 256 table entries is eight steps of the shift register from its index |
| Crc32.ByTableIsShifted | libZaeUtil/crc32.c:98-99 | one table look-up equals shifting the byte's eight bits in, one at a time |
| Crc32.TableMatchesRegister | libZaeUtil/crc32.c:90-102 | for every message the table form equals the bit-serial reflected CRC with polynomial 0xEDB88320 |
| Crc32.CrcAppend | libZaeUtil/crc32.c:90-102 | handing the checksum of a in with b gives the checksum of a followed by b |
| Crc32.Crc32 | libZaeUtil/crc32.c:90-102 | the loop computes the bit-serial checksum |
| Crc32.OnesBeforeAndAfter | libZaeUtil/crc32.c:96-101 | all ones go in before the message and are taken out behind it |
| Crc32.CheckValue | libZaeUtil/crc32.c:90-102 | the checksum of the digits 1 to 9 is CBF43926 |
| Base64.BasisIsAlphabet | libZaeUtil/base64.c:171-172 | a value's character is the one at its place in the alphabet of section 4 of RFC 4648 |
| Base64.CodedIffInAlphabet | libZaeUtil/base64.c:90-109 | a character is coded exactly when it is in that alphabet |
| Base64.QuadIsNumber | libZaeUtil/base64.c:186-191 | three bytes and their four values are the same number, high digits first |
| Base64.EncodedByLength | libZaeUtil/base64.c:185-205 | what one, two and three bytes are encoded to, padding included |
| Base64.Encode | libZaeUtil/base64.c:179-209 | writes the specified text and its terminator, (n+2)/3*4+1 characters, and nothing behind them |
| Base64.Decode | libZaeUtil/base64.c:126-169 | writes the bytes the leading coded characters stand for, with a terminator, returns their number, and touches nothing behind |
| Base64.CodedOfEncoded | libZaeUtil/base64.c:133-135 | behind an encoding the scan stops at the padding and has read exactly the encoded values |
| Base64.BytesOfSextets | libZaeUtil/base64.c:141-164 | the values of an encoding stand for the original bytes, whatever the length modulo three |
| Base64.RoundTrip | libZaeUtil/base64.c:126-209 | decoding an encoding gives the bytes back, for every byte sequence |
| Base64.EncodeThenDecode | libZaeUtil/base64.c:126-209 | the two procedures in a row return the original bytes and their number |
| LinkedStack.Stack.PushFront | libZaeUtil/stack.c:43-64 | the sequence gains the value in front; all links stay right |
| LinkedStack.Stack.PushBack | libZaeUtil/stack.c:96-122 | the sequence gains the value at the end; all links stay right |
| LinkedStack.Stack.PopFront | libZaeUtil/stack.c:66-94 | returns and removes the first value, or none when empty |
| LinkedStack.Stack.PopBack | libZaeUtil/stack.c:124-151 | returns and removes the last value, or none when empty |
| LinkedStack.Stack.PeekFront | libZaeUtil/stack.c:153-163 | the first value, without change |
| LinkedStack.Stack.PeekBack | libZaeUtil/stack.c:165-175 | the last value, without change |
| LinkedStack.Stack.PeekAt | libZaeUtil/stack.c:177-192 | the value at an index, or none past the end |
| LinkedStack.Stack.Remove | libZaeUtil/stack.c:196-244 | the first occurrence is unlinked, everything else stays in order; absent values change nothing |
| LinkedStack.Operate | libZaeUtil/stack.c:43-244 | one operation of any kind changes the sequence and answers as specified, and keeps no nodes but old and new ones |
| LinkedStack.Run | libZaeUtil/stack.c:5-244 | over every run of pushes, pops, peeks and removals from an empty list the answers are those of a sequence |
| LinkedStack.RemovedFirstCounts | libZaeUtil/stack.c:196-244 | removal takes out one copy of the value from the multiset, or nothing when it is absent |

## Left out

- Characters of a lexeme: the compiler works on lexemes, so number parsing, the data buffer, escapes inside strings and the look-up of device, service and built-in names (command_parser.c:560-780) are not modelled; a resolved function carries its name, kind and argument count. An unresolvable word, an error in the code, is not a lexeme here.
- `ParserDfa` reads past the end of a text as NUL; what lies behind the terminator in memory is not modelled. Whether the work for a word, a right parenthesis or a comma succeeds is a parameter. That a text holds no NUL is what its being a C string means.
- The table searches of `operator_create` and `parser_dfa_find_descriptor` are not modelled: an operator's argument count and evaluator are functions of its kind.
- Values are 32-bit integers, booleans and strings. Floats, lists and pointers are left out, and with them written numbers of 2^31 and more, which become floats; printing a value and reading the wrong union member are parameters of the environment.
- RpnMachine.ExecutesTree: trees are required to call functions with their own argument count; the table of device and service methods that fixes it is not part of this model. More than four arguments are modelled as the failure they are.
- RpnMachine.Machine.Execute: a program holds no parentheses, as no compiled program does (`ShuntingYard.Parser.Flush` drops them).
- is_prime's eight unrolled tests appear as one test and a table of increments, which a loop walks round.
- Sizes, counts, clocks and timer ids are unbounded, so the wrap-around of 32-bit table sizes and of `max_timer_id` is not modelled; keys are 32 bits. Timeouts and clock readings are nonnegative.
- The resolver's checksum is a parameter; `Resolver.InjectiveNeverClashes` says what its being injective on the names in use gives. The parent pointer cached in a record is looked up and returned, not stored.
- Splitting a command or a line into words (cli.c:104-163), the vector of completed words and the parsing of numbers in INT and LIST nodes (a parameter says which texts a node takes) are not modelled, nor a node installed with no command list at all. The trailing null entry of a line, which the loop skips, is omitted.
- Handlers that poll again are not modelled. `EventPump.Pump.Poll` takes what handlers send as a function of the event, `EventHandlers.HandlerTable.Deliver` what they register and unregister as a finite script in the order of the calls, so that a handler that registers anew at every call for ever is left out.
- TimerPump.Pump.RemoveTimeout: keeps the invariant for live ids only, because the code does not keep it otherwise; the table it leaves is stated for every id.
- `timer_pump_poll` looks at a slot without taking the lock (timer_pump.c:124-146). The model takes the part of a turn before the handler, and the part behind it, as one step each, so a start or stop by another thread in the middle of such a part is not modelled.
- Mutexes appear as the atomicity of steps; a critical section is one step. Freeing memory and reference counts are left out.
- Thin wrappers are left out: `Base64decode_len`, `resolver_add_entry_default`, `resolver_get_instances`, `variant_hash_free` and the like.
- `stack_sort`, `stack_splice`, the list iterators, `stack_is_exists`, vectors and the allocator are left out; none of the proved parts rests on them.
- Terminal, sockets, files, scenes, services, virtual devices, REST, Python and Z-Way glue, and HTTP request parsing in picohttpparser.c are left out: input and output, or calls into libraries that cannot be seen.
