/** What a sender may write in the chunked coding, and the proof that decoding it
    gives the body back. */
module ChunkedEncoding {
  import opened ChunkedAutomaton
  import opened ChunkedDecoder

  const CRLF: seq<Byte> := [CR, LF]

  /** A chunk: its size field, its extension and its data. */
  datatype Chunk = Chunk(size: seq<Byte>, ext: seq<Byte>, data: seq<Byte>)

  function HexValue(digits: seq<Byte>): (v: nat)
    requires forall i | 0 <= i < |digits| :: IsHex(digits[i])
  {
    if digits == [] then 0
    else
      assert IsHex(digits[|digits| - 1]);
      HexValue(digits[..|digits| - 1]) * 16 + DecodeHex(digits[|digits| - 1])
  }

  /** Up to sixteen digits, either case, leading zeros allowed. */
  ghost predicate SizeField(digits: seq<Byte>, n: nat) {
    && 1 <= |digits| <= MAX_HEX
    && (forall i | 0 <= i < |digits| :: IsHex(digits[i]))
    && HexValue(digits) == n
  }

  /** Anything up to the line end that does not continue the size field. */
  predicate Extension(ext: seq<Byte>) {
    LF !in ext && (ext != [] ==> !IsHex(ext[0]))
  }

  ghost predicate WellFormed(c: Chunk) {
    SizeField(c.size, |c.data|) && Extension(c.ext) && c.data != []
  }

  /** A trailer line is not empty; more generally it is not made of returns only. */
  ghost predicate TrailerLine(line: seq<Byte>) {
    LF !in line && exists i :: 0 <= i < |line| && line[i] != CR
  }

  /** A whole message: the chunks, the last chunk with its zero size, the trailer. */
  datatype Message = Message(chunks: seq<Chunk>, lastSize: seq<Byte>, lastExt: seq<Byte>, trailer: seq<seq<Byte>>)

  ghost predicate WellFormedMessage(m: Message) {
    && (forall i | 0 <= i < |m.chunks| :: WellFormed(m.chunks[i]))
    && SizeField(m.lastSize, 0) && Extension(m.lastExt)
    && (forall i | 0 <= i < |m.trailer| :: TrailerLine(m.trailer[i]))
  }

  function EncodeChunk(c: Chunk): seq<Byte> {
    c.size + c.ext + CRLF + c.data + CRLF
  }

  function EncodeChunks(cs: seq<Chunk>): seq<Byte> {
    if cs == [] then [] else EncodeChunk(cs[0]) + EncodeChunks(cs[1..])
  }

  function EncodeTrailer(lines: seq<seq<Byte>>): seq<Byte> {
    if lines == [] then CRLF else lines[0] + CRLF + EncodeTrailer(lines[1..])
  }

  function Encode(m: Message): seq<Byte> {
    EncodeChunks(m.chunks) + (m.lastSize + m.lastExt + CRLF) + EncodeTrailer(m.trailer)
  }

  function Body(cs: seq<Chunk>): seq<Byte> {
    if cs == [] then [] else cs[0].data + Body(cs[1..])
  }

  // ----- Reading the pieces ------------------------------------------------

  /** Reading the digits of a size field from the start of one. */
  lemma {:induction false} RunDigits(trailer: bool, digits: seq<Byte>, more: seq<Byte>)
    requires |digits| <= MAX_HEX && forall i | 0 <= i < |digits| :: IsHex(digits[i])
    ensures HexValue(digits) < Pow16(|digits|) <= TWO_64
    ensures Run(START, trailer, digits + more) == Run(Status(Size, HexValue(digits), |digits|), trailer, more)
    decreases |digits|
  {
    hide React, Run, Accumulate, DecodeHex;
    if digits == [] {
      assert digits + more == more;
      Pow16Is64Bits();
    } else {
      var n := |digits| - 1;
      var init, d := digits[..n], digits[n];
      RunDigits(trailer, init, [d] + more);
      assert digits + more == init + ([d] + more);
      var s := Status(Size, HexValue(init), n);
      AccumulateExact(s, DecodeHex(d));
      RunDigit(s, trailer, [d] + more);
      assert ([d] + more)[1..] == more;
    }
  }

  /** Bytes that are not line feeds keep an extension or a trailer line going. */
  lemma {:induction false} RunSkips(s: Status, trailer: bool, skipped: seq<Byte>, more: seq<Byte>)
    requires s.phase == Ext || s.phase == TrailerMiddle
    requires LF !in skipped
    ensures Run(s, trailer, skipped + more) == Run(s, trailer, more)
    decreases |skipped|
  {
    if skipped == [] {
      assert skipped + more == more;
    } else {
      var input := skipped + more;
      assert input[0] == skipped[0] && input[0] in skipped;
      assert input[1..] == skipped[1..] + more;
      RunQuiet(s, trailer, input);
      RunSkips(s, trailer, skipped[1..], more);
    }
  }

  /** From the end of the digits to the end of the line that carries them. */
  lemma RunSizeLine(s: Status, trailer: bool, ext: seq<Byte>, more: seq<Byte>)
    requires s.phase == Size && 0 < s.hexCount && Extension(ext)
    ensures Run(s, trailer, ext + CRLF + more) == Run(Status(Ext, s.left, 0), trailer, [LF] + more)
  {
    var input := ext + CRLF + more;
    assert input[0] == if ext == [] then CR else ext[0];
    RunLeavesSize(s, trailer, input);
    assert input == (ext + [CR]) + ([LF] + more);
    RunSkips(Status(Ext, s.left, 0), trailer, ext + [CR], [LF] + more);
  }

  /** A nonempty chunk is read whole and its data handed out. */
  lemma RunChunk(trailer: bool, c: Chunk, more: seq<Byte>)
    requires WellFormed(c)
    ensures Run(START, trailer, EncodeChunk(c) + more) == Before(c.data, Run(START, trailer, more))
  {
    hide Run;
    var n := |c.data|;
    var afterData := CRLF + more;
    var afterLine := c.data + afterData;
    assert EncodeChunk(c) + more == c.size + (c.ext + CRLF + afterLine);
    RunDigits(trailer, c.size, c.ext + CRLF + afterLine);
    RunSizeLine(Status(Size, n, |c.size|), trailer, c.ext, afterLine);
    RunQuiet(Status(Ext, n, 0), trailer, [LF] + afterLine);
    assert ([LF] + afterLine)[1..] == afterLine;
    RunData(Status(Data, n, 0), trailer, afterLine);
    assert afterLine[..n] == c.data && afterLine[n..] == afterData;
    var crlf := Status(Crlf, 0, 0);
    RunQuiet(crlf, trailer, afterData);
    assert afterData[1..] == [LF] + more;
    RunQuiet(crlf, trailer, [LF] + more);
    assert ([LF] + more)[1..] == more;
  }

  lemma {:induction false} RunChunks(trailer: bool, cs: seq<Chunk>, more: seq<Byte>)
    requires forall i | 0 <= i < |cs| :: WellFormed(cs[i])
    ensures Run(START, trailer, EncodeChunks(cs) + more) == Before(Body(cs), Run(START, trailer, more))
  {
    hide Run, WellFormed;
    var end := Run(START, trailer, more);
    if cs == [] {
      assert [] + more == more && [] + end.out == end.out;
    } else {
      var rest := EncodeChunks(cs[1..]) + more;
      assert EncodeChunks(cs) + more == EncodeChunk(cs[0]) + rest;
      RunChunk(trailer, cs[0], rest);
      RunChunks(trailer, cs[1..], more);
      BeforeTwice(cs[0].data, Body(cs[1..]), end);
    }
  }

  /** The first byte of a line that is no return ends the search for an empty line. */
  lemma {:induction false} RunTrailerLine(trailer: bool, line: seq<Byte>, more: seq<Byte>)
    requires TrailerLine(line)
    ensures Run(Status(TrailerHead, 0, 0), trailer, line + [CR, LF] + more) == Run(Status(TrailerHead, 0, 0), trailer, more)
    decreases |line|
  {
    hide Run;
    var head, middle := Status(TrailerHead, 0, 0), Status(TrailerMiddle, 0, 0);
    var input := line + [CR, LF] + more;
    assert input[0] == line[0] && input[0] in line;
    assert input[1..] == line[1..] + [CR, LF] + more;
    RunQuiet(head, trailer, input);
    if line[0] == CR {
      assert LF !in line[1..];
      var i :| 0 <= i < |line| && line[i] != CR;
      assert line[1..][i - 1] != CR;
      RunTrailerLine(trailer, line[1..], more);
    } else {
      assert input[1..] == (line[1..] + [CR]) + ([LF] + more);
      RunSkips(middle, trailer, line[1..] + [CR], [LF] + more);
      RunQuiet(middle, trailer, [LF] + more);
      assert ([LF] + more)[1..] == more;
    }
  }

  lemma {:induction false} RunTrailer(trailer: bool, lines: seq<seq<Byte>>, more: seq<Byte>)
    requires forall i | 0 <= i < |lines| :: TrailerLine(lines[i])
    ensures Run(Status(TrailerHead, 0, 0), trailer, EncodeTrailer(lines) + more)
            == Outcome(Complete, Status(TrailerHead, 0, 0), [], more)
  {
    hide Run, TrailerLine;
    var head := Status(TrailerHead, 0, 0);
    if lines == [] {
      var input := CRLF + more;
      RunQuiet(head, trailer, input);
      assert input[1..] == [LF] + more;
      RunStep(head, trailer, [LF] + more);
      assert ([LF] + more)[1..] == more;
    } else {
      assert EncodeTrailer(lines) + more == lines[0] + [CR, LF] + (EncodeTrailer(lines[1..]) + more);
      RunTrailerLine(trailer, lines[0], EncodeTrailer(lines[1..]) + more);
      RunTrailer(trailer, lines[1..], more);
    }
  }

  /** The last chunk: with trailer reading the trailer follows, without it the message
      is over at the end of the line. */
  lemma RunLastChunk(trailer: bool, size: seq<Byte>, ext: seq<Byte>, more: seq<Byte>)
    requires SizeField(size, 0) && Extension(ext)
    ensures Run(START, trailer, size + ext + CRLF + more) ==
            if trailer then Run(Status(TrailerHead, 0, 0), trailer, more)
            else Outcome(Complete, Status(Ext, 0, 0), [], more)
  {
    hide Run;
    assert size + ext + CRLF + more == size + (ext + CRLF + more);
    RunDigits(trailer, size, ext + CRLF + more);
    RunSizeLine(Status(Size, 0, |size|), trailer, ext, more);
    RunStep(Status(Ext, 0, 0), trailer, [LF] + more);
    assert ([LF] + more)[1..] == more;
    if trailer {
      RunQuiet(Status(Ext, 0, 0), trailer, [LF] + more);
    }
  }

  /** Decoding any chunked message followed by any bytes gives the body. With trailer
      reading exactly the following bytes are left; without it the trailer is left too. */
  lemma RoundTrip(trailer: bool, m: Message, following: seq<Byte>)
    requires WellFormedMessage(m)
    ensures var o := Run(START, trailer, Encode(m) + following);
            o.verdict == Complete && o.out == Body(m.chunks) &&
            o.rest == if trailer then following else EncodeTrailer(m.trailer) + following
  {
    hide Run, WellFormed, TrailerLine;
    var afterLast := EncodeTrailer(m.trailer) + following;
    var last := m.lastSize + m.lastExt + CRLF;
    assert Encode(m) + following == EncodeChunks(m.chunks) + (last + afterLast);
    RunChunks(trailer, m.chunks, last + afterLast);
    RunLastChunk(trailer, m.lastSize, m.lastExt, afterLast);
    if trailer {
      RunTrailer(trailer, m.trailer, following);
    }
    assert Body(m.chunks) + [] == Body(m.chunks);
  }

  // ----- What is refused, and what is unfinished ---------------------------

  /** A chunk that does not begin with a digit is refused where it begins. */
  lemma NoDigitRefused(trailer: bool, input: seq<Byte>)
    requires input != [] && !IsHex(input[0])
    ensures Run(START, trailer, input) == Outcome(Malformed, START, [], input)
  {
    RunBadSize(START, trailer, input);
  }

  /** A seventeenth digit is refused. */
  lemma LongSizeRefused(trailer: bool, digits: seq<Byte>, more: seq<Byte>)
    requires |digits| == 17 && forall i | 0 <= i < 17 :: IsHex(digits[i])
    ensures Run(START, trailer, digits + more).verdict == Malformed
    ensures Run(START, trailer, digits + more).rest == [digits[16]] + more
  {
    hide Run;
    var rest := [digits[16]] + more;
    assert digits + more == digits[..16] + rest;
    RunDigits(trailer, digits[..16], rest);
    RunBadSize(Status(Size, HexValue(digits[..16]), 16), trailer, rest);
  }

  /** Behind the data of a chunk only returns and then a line feed may stand. */
  lemma {:induction false} GarbageBehindDataRefused(trailer: bool, crs: seq<Byte>, b: Byte, more: seq<Byte>)
    requires (forall i | 0 <= i < |crs| :: crs[i] == CR) && b != CR && b != LF
    ensures Run(Status(Crlf, 0, 0), trailer, crs + [b] + more) ==
            Outcome(Malformed, Status(Crlf, 0, 0), [], [b] + more)
    decreases |crs|
  {
    hide Run;
    var input := crs + [b] + more;
    if crs == [] {
      assert input == [b] + more;
      RunStep(Status(Crlf, 0, 0), trailer, input);
    } else {
      assert input[0] == CR && input[1..] == crs[1..] + [b] + more;
      RunQuiet(Status(Crlf, 0, 0), trailer, input);
      GarbageBehindDataRefused(trailer, crs[1..], b, more);
    }
  }

  /** Every proper beginning of a message is incomplete when the trailer is read too. */
  lemma ProperBeginningIncomplete(m: Message, beginning: seq<Byte>, more: seq<Byte>)
    requires WellFormedMessage(m) && Encode(m) == beginning + more && more != []
    ensures Run(START, true, beginning).verdict == Incomplete
  {
    hide Run, WellFormedMessage, Encode;
    RoundTrip(true, m, []);
    assert Encode(m) + [] == beginning + more;
    RunSplits(START, true, beginning, more);
  }

  // ----- Every body has an encoding ----------------------------------------

  function HexDigit(v: nat): (c: Byte)
    requires v < 16
    ensures IsHex(c) && DecodeHex(c) == v
  {
    if v < 10 then 48 + v else 97 + v - 10
  }

  /** The size field printf("%x") writes. */
  function HexDigits(n: nat): (d: seq<Byte>)
    ensures d != [] && forall i | 0 <= i < |d| :: IsHex(d[i])
    ensures HexValue(d) == n
  {
    if n < 16 then [HexDigit(n)] else HexDigits(n / 16) + [HexDigit(n % 16)]
  }

  lemma {:induction false} HexDigitsFit(n: nat, k: nat)
    requires n < Pow16(k) && 1 <= k
    ensures |HexDigits(n)| <= k
  {
    if 16 <= n {
      assert n / 16 < Pow16(k - 1);
      HexDigitsFit(n / 16, k - 1);
    }
  }

  function PlainChunks(parts: seq<seq<Byte>>): seq<Chunk> {
    if parts == [] then []
    else [Chunk(HexDigits(|parts[0]|), [], parts[0])] + PlainChunks(parts[1..])
  }

  /** The size field of any data that a 64-bit size can describe. */
  lemma HexDigitsAreSizeField(n: nat)
    requires n < TWO_64
    ensures SizeField(HexDigits(n), n)
  {
    hide Pow16, HexDigits, HexValue;
    Pow16Is64Bits();
    HexDigitsFit(n, MAX_HEX);
  }

  /** Whatever way a body is divided into nonempty parts, the plain encoding of the
      parts is well formed and its body is their concatenation. */
  lemma {:induction false} PlainEncodingExists(parts: seq<seq<Byte>>)
    requires forall i | 0 <= i < |parts| :: 0 < |parts[i]| < TWO_64
    ensures WellFormedMessage(Message(PlainChunks(parts), HexDigits(0), [], []))
    ensures Body(PlainChunks(parts)) == Flatten(parts)
  {
    hide SizeField, HexDigits;
    HexDigitsAreSizeField(0);
    if parts != [] {
      HexDigitsAreSizeField(|parts[0]|);
      PlainEncodingExists(parts[1..]);
      assert PlainChunks(parts)[1..] == PlainChunks(parts[1..]);
    }
  }

  // ----- Whole streams -----------------------------------------------------

  /** One buffer of a stream: what it adds to the outcome of all that is to come. */
  lemma StreamStep(before: Status, trailer: bool, body: seq<Byte>, parts: seq<seq<Byte>>)
    requires parts != []
    ensures var o := Run(before, trailer, parts[0]);
            var all := Before(body, Run(before, trailer, Flatten(parts)));
            if o.verdict == Incomplete then all == Before(body + o.out, Run(o.status, trailer, Flatten(parts[1..])))
            else all == Outcome(o.verdict, o.status, body + o.out, o.rest + Flatten(parts[1..]))
  {
    hide Run;
    var o := Run(before, trailer, parts[0]);
    RunSplits(before, trailer, parts[0], Flatten(parts[1..]));
    if o.verdict == Incomplete {
      BeforeTwice(body, o.out, Run(o.status, trailer, Flatten(parts[1..])));
    }
  }

  /** A caller's loop: each buffer that arrives is handed to the decoder, as long as the
      answer is "incomplete". The body, the verdict and, for a complete message, the bytes
      behind it are those of the automaton on the whole stream. */
  method DecodeStream(consumeTrailer: bool, parts: seq<seq<Byte>>)
      returns (verdict: Verdict, body: seq<Byte>, rest: seq<Byte>)
    ensures var o := Run(START, consumeTrailer, Flatten(parts));
            verdict == o.verdict && body == o.out && (verdict == Complete ==> rest == o.rest)
  {
    hide Run, Valid;
    StartIsValid();
    var decoder := new Decoder(consumeTrailer);
    ghost var whole := Run(START, consumeTrailer, Flatten(parts));
    verdict, body, rest := Incomplete, [], [];
    assert parts[0..] == parts && Before([], whole) == whole;
    var i := 0;
    while i < |parts|
      invariant i <= |parts| && fresh(decoder) && Valid(decoder.Current()) && decoder.consumeTrailer == consumeTrailer
      invariant Before(body, Run(decoder.Current(), consumeTrailer, Flatten(parts[i..]))) == whole
    {
      StreamStep(decoder.Current(), consumeTrailer, body, parts[i..]);
      assert parts[i..][1..] == parts[i + 1..];
      var buf := new Byte[|parts[i]|](k requires 0 <= k < |parts[i]| => parts[i][k]);
      assert buf[..buf.Length] == parts[i];
      var ret, size := decoder.Decode(buf, buf.Length);
      body := body + buf[..size];
      if ret == MALFORMED {
        verdict := Malformed;
        return;
      }
      if ret != INCOMPLETE {
        verdict, rest := Complete, buf[size..size + ret] + Flatten(parts[i + 1..]);
        return;
      }
      i := i + 1;
    }
    NothingToCome(decoder.Current(), consumeTrailer, body, parts[i..]);
  }

  lemma StartIsValid()
    ensures Valid(START)
  {
  }

  lemma NothingToCome(s: Status, trailer: bool, body: seq<Byte>, parts: seq<seq<Byte>>)
    requires parts == []
    ensures Before(body, Run(s, trailer, Flatten(parts))) == Outcome(Incomplete, s, body, [])
  {
  }

  /** Any chunked message with anything behind it, arriving in any pieces: the decoder gives
      the body back, and exactly what followed is left, or the trailer and what followed
      when the decoder is not asked to read the trailer. */
  method DecodeMessage(consumeTrailer: bool, ghost m: Message, ghost following: seq<Byte>, parts: seq<seq<Byte>>)
      returns (body: seq<Byte>, rest: seq<Byte>)
    requires WellFormedMessage(m) && Flatten(parts) == Encode(m) + following
    ensures body == Body(m.chunks)
    ensures rest == if consumeTrailer then following else EncodeTrailer(m.trailer) + following
  {
    hide Run, WellFormedMessage;
    RoundTrip(consumeTrailer, m, following);
    var verdict;
    verdict, body, rest := DecodeStream(consumeTrailer, parts);
  }
}
