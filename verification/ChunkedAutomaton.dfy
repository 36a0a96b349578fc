/** The chunked transfer coding (section 4.1 of RFC 7230) as picohttpparser.c reads
    it: an automaton that takes one byte at a time. */
module ChunkedAutomaton {

  type Byte = b: int | 0 <= b < 256

  const CR: Byte := 13
  const LF: Byte := 10
  const TWO_64: nat := 0x1_0000_0000_0000_0000
  const MAX_HEX: nat := 16

  datatype Phase = Size | Ext | Data | Crlf | TrailerHead | TrailerMiddle

  /** The fields of phr_chunked_decoder that a call changes. */
  datatype Status = Status(phase: Phase, left: nat, hexCount: nat)

  /** A zero-filled decoder. */
  const START: Status := Status(Size, 0, 0)

  /** decode_hex */
  function DecodeHex(c: Byte): (v: int)
    ensures -1 <= v < 16
  {
    if 48 <= c <= 57 then c - 48
    else if 65 <= c <= 70 then c - 65 + 10
    else if 97 <= c <= 102 then c - 97 + 10
    else -1
  }

  predicate IsHex(c: Byte) { DecodeHex(c) != -1 }

  const DIGITS: string := "0123456789abcdef"
  const CAPITALS: string := "0123456789ABCDEF"

  /** A digit is worth its place in either alphabet, and there are no others. */
  lemma DigitsByPlace(c: Byte, v: nat)
    requires v < 16
    ensures DecodeHex(c) == v <==> c as char == DIGITS[v] || c as char == CAPITALS[v]
    ensures !IsHex(c) <==> c as char !in DIGITS && c as char !in CAPITALS
  {
    if IsHex(c) {
      assert DIGITS[DecodeHex(c)] in DIGITS && CAPITALS[DecodeHex(c)] in CAPITALS;
    }
  }

  /** What one byte does: read on, perhaps handing the byte to the body; finish, with
      the byte used up; or refuse the byte and leave it unread. */
  datatype Reaction = Go(next: Status, emit: bool) | Finish(last: Status) | Refuse

  function ReactExt(s: Status, trailer: bool, c: Byte): Reaction {
    if c != LF then Go(s, false)
    else if s.left != 0 then Go(s.(phase := Data), false)
    else if trailer then Go(s.(phase := TrailerHead), false)
    else Finish(s)
  }

  /** size_t arithmetic: the accumulated size wraps at 2^64. */
  function Accumulate(left: nat, v: nat): nat {
    (left * 16 + v) % TWO_64
  }

  function React(s: Status, trailer: bool, c: Byte): Reaction {
    match s.phase
    case Size =>
      if !IsHex(c) then
        if s.hexCount == 0 then Refuse else ReactExt(Status(Ext, s.left, 0), trailer, c)
      else if s.hexCount == MAX_HEX then Refuse
      else Go(Status(Size, Accumulate(s.left, DecodeHex(c)), s.hexCount + 1), false)
    case Ext => ReactExt(s, trailer, c)
    case Data => if s.left <= 1 then Go(Status(Crlf, 0, s.hexCount), true) else Go(s.(left := s.left - 1), true)
    case Crlf => if c == CR then Go(s, false) else if c == LF then Go(s.(phase := Size), false) else Refuse
    case TrailerHead =>
      if c == CR then Go(s, false) else if c == LF then Finish(s) else Go(s.(phase := TrailerMiddle), false)
    case TrailerMiddle => if c == LF then Go(s.(phase := TrailerHead), false) else Go(s, false)
  }

  datatype Verdict = Incomplete | Complete | Malformed

  /** The verdict on an input, the status and body bytes it leads to and what is unread. */
  datatype Outcome = Outcome(verdict: Verdict, status: Status, out: seq<Byte>, rest: seq<Byte>)

  function Before(out: seq<Byte>, o: Outcome): Outcome {
    o.(out := out + o.out)
  }

  function Run(s: Status, trailer: bool, input: seq<Byte>): Outcome
    decreases |input|
  {
    if input == [] then Outcome(Incomplete, s, [], [])
    else
      match React(s, trailer, input[0])
      case Refuse => Outcome(Malformed, s, [], input)
      case Finish(last) => Outcome(Complete, last, [], input[1..])
      case Go(next, emit) => Before(if emit then [input[0]] else [], Run(next, trailer, input[1..]))
  }

  // ----- Splitting the input -----------------------------------------------

  /** Carrying on with more input after `o`. */
  function Continued(o: Outcome, trailer: bool, more: seq<Byte>): Outcome {
    if o.verdict == Incomplete then Before(o.out, Run(o.status, trailer, more))
    else o.(rest := o.rest + more)
  }

  lemma {:induction false} RunSplits(s: Status, trailer: bool, a: seq<Byte>, b: seq<Byte>)
    ensures Run(s, trailer, a + b) == Continued(Run(s, trailer, a), trailer, b)
    decreases |a|
  {
    hide React;
    if a == [] {
      assert a + b == b;
      assert [] + Run(s, trailer, b).out == Run(s, trailer, b).out;
    } else {
      assert (a + b)[1..] == a[1..] + b;
      match React(s, trailer, a[0]) {
        case Refuse =>
        case Finish(last) =>
        case Go(next, emit) =>
          RunSplits(next, trailer, a[1..], b);
          var e := if emit then [a[0]] else [];
          var o := Run(next, trailer, a[1..]);
          assert e + (o.out + Run(o.status, trailer, b).out) == e + o.out + Run(o.status, trailer, b).out;
      }
    }
  }

  function Flatten(parts: seq<seq<Byte>>): seq<Byte> {
    if parts == [] then [] else parts[0] + Flatten(parts[1..])
  }

  /** One call per buffer, as long as the calls answer "incomplete". */
  function RunParts(s: Status, trailer: bool, parts: seq<seq<Byte>>): Outcome
    decreases |parts|
  {
    if parts == [] then Outcome(Incomplete, s, [], [])
    else
      var o := Run(s, trailer, parts[0]);
      if o.verdict == Incomplete then Before(o.out, RunParts(o.status, trailer, parts[1..]))
      else o.(rest := o.rest + Flatten(parts[1..]))
  }

  /** However a stream is cut into buffers, the calls together give the body, the
      verdict and the status that one call on the whole stream gives. */
  lemma {:induction false} AnySplitting(s: Status, trailer: bool, parts: seq<seq<Byte>>)
    ensures RunParts(s, trailer, parts) == Run(s, trailer, Flatten(parts))
    decreases |parts|
  {
    hide Run;
    if parts == [] {
      RunEmpty(s, trailer);
    } else {
      var o := Run(s, trailer, parts[0]);
      RunSplits(s, trailer, parts[0], Flatten(parts[1..]));
      if o.verdict == Incomplete {
        AnySplitting(o.status, trailer, parts[1..]);
      }
    }
  }

  lemma RunEmpty(s: Status, trailer: bool)
    ensures Run(s, trailer, []) == Outcome(Incomplete, s, [], [])
  {
  }

  // ----- No overflow -------------------------------------------------------

  function Pow16(n: nat): nat {
    if n == 0 then 1 else 16 * Pow16(n - 1)
  }

  /** What holds of every status a decoder can be in. */
  predicate Valid(s: Status) {
    && s.hexCount <= MAX_HEX
    && (s.phase != Size ==> s.hexCount == 0 && s.left < TWO_64)
    && (s.phase == Size ==> s.left < Pow16(s.hexCount))
    && (s.phase == Data ==> 0 < s.left)
    && (s.phase in {Crlf, TrailerHead, TrailerMiddle} ==> s.left == 0)
  }

  lemma {:induction false} Pow16Grows(m: nat, n: nat)
    requires m <= n
    ensures 1 <= Pow16(m) <= Pow16(n)
    decreases n
  {
    if m < n {
      Pow16Grows(m, n - 1);
    } else if 0 < m {
      Pow16Grows(m - 1, n - 1);
    }
  }

  lemma Pow16Is64Bits()
    ensures Pow16(MAX_HEX) == TWO_64
  {
    assert Pow16(4) == 0x1_0000;
    assert Pow16(8) == 0x1_0000_0000;
    assert Pow16(12) == 0x1_0000_0000_0000;
  }

  /** The multiply-add of a valid status never leaves 64 bits. */
  lemma AccumulateExact(s: Status, v: nat)
    requires Valid(s) && s.phase == Size && s.hexCount < MAX_HEX && v < 16
    ensures Accumulate(s.left, v) == s.left * 16 + v < Pow16(s.hexCount + 1) <= TWO_64
  {
    Pow16Grows(s.hexCount + 1, MAX_HEX);
    Pow16Is64Bits();
  }

  lemma ReactKeepsValid(s: Status, trailer: bool, c: Byte)
    requires Valid(s)
    ensures match React(s, trailer, c)
            case Go(next, _) => Valid(next)
            case Finish(last) => Valid(last)
            case Refuse => true
  {
    hide Pow16, Accumulate;
    if s.phase == Size {
      SizeFits(s);
      if IsHex(c) && s.hexCount < MAX_HEX {
        AccumulateExact(s, DecodeHex(c));
      }
    } else {
      NothingReadYet();
    }
  }

  lemma NothingReadYet()
    ensures Pow16(0) == 1
  {
  }

  /** A size that is complete fits 64 bits. */
  lemma SizeFits(s: Status)
    requires Valid(s) && s.phase == Size
    ensures Valid(Status(Ext, s.left, 0))
  {
    Pow16Grows(s.hexCount, MAX_HEX);
    Pow16Is64Bits();
  }

  /** Every status along every run from a valid one is valid. */
  lemma {:induction false} RunKeepsValid(s: Status, trailer: bool, input: seq<Byte>)
    requires Valid(s)
    ensures Valid(Run(s, trailer, input).status)
    decreases |input|
  {
    hide Valid, React;
    if input != [] {
      ReactKeepsValid(s, trailer, input[0]);
      match React(s, trailer, input[0]) {
        case Go(next, _) => RunKeepsValid(next, trailer, input[1..]);
        case _ =>
      }
    }
  }
}
