/** phr_decode_chunked: the decoder object, which rewrites a buffer in place, and its
    refinement of the byte automaton. */
module ChunkedDecoder {
  import opened ChunkedAutomaton

  const INCOMPLETE: int := -2
  const MALFORMED: int := -1

  /** The buffer after bytes src..end have moved down to dst. */
  function Moved(buf: seq<Byte>, dst: nat, src: nat, end: nat): (m: seq<Byte>)
    requires dst <= src <= end <= |buf|
    ensures |m| == |buf|
  {
    buf[..dst] + buf[src..end] + buf[dst + (end - src)..]
  }

  lemma MovedAt(buf: seq<Byte>, dst: nat, src: nat, end: nat, k: nat)
    requires dst <= src <= end <= |buf| && k < |buf|
    ensures Moved(buf, dst, src, end)[k] == if dst <= k < dst + (end - src) then buf[src - dst + k] else buf[k]
  {
  }

  lemma MovedPieces(buf: seq<Byte>, dst: nat, src: nat, end: nat)
    requires dst <= src <= end <= |buf|
    ensures var m, after := Moved(buf, dst, src, end), dst + (end - src);
            && m[..dst] == buf[..dst] && m[dst..after] == buf[src..end]
            && m[..after] == buf[..dst] + buf[src..end]
            && m[end..] == buf[end..]
  {
    var m, after := Moved(buf, dst, src, end), dst + (end - src);
    var left := buf[..dst] + buf[src..end];
    assert m == left + buf[after..];
    assert m[end..] == buf[after..][end - after..];
  }

  /** memmove to a lower address of the same buffer, and nothing when the addresses
      are equal. */
  method MoveDown(buf: array<Byte>, dst: nat, src: nat, n: nat)
    requires dst <= src && src + n <= buf.Length
    modifies buf
    ensures buf[..] == Moved(old(buf[..]), dst, src, src + n)
  {
    hide Moved;
    ghost var was := buf[..];
    if dst != src {
      var i := 0;
      while i < n
        invariant i <= n
        invariant forall k | 0 <= k < dst || dst + i <= k < buf.Length :: buf[k] == was[k]
        invariant forall k | dst <= k < dst + i :: buf[k] == was[src - dst + k]
      {
        buf[dst + i] := buf[src + i];
        i := i + 1;
      }
    }
    forall k | 0 <= k < buf.Length ensures buf[k] == Moved(was, dst, src, src + n)[k] {
      MovedAt(was, dst, src, src + n, k);
    }
  }

  lemma SameTail(a: seq<Byte>, b: seq<Byte>, from: nat, end: nat)
    requires from <= end <= |a| == |b| && a[from..] == b[from..]
    ensures a[from..end] == b[from..end]
  {
    assert a[from..end] == a[from..][..end - from];
    assert b[from..end] == b[from..][..end - from];
  }

  /** How one stretch of the switch ends. */
  datatype Exit = GoOn | Stop(verdict: Verdict)

  /** The automaton on `input` is, without handing out a byte, where the decoder is on
      the unread `left` of it. */
  ghost predicate Follows(before: Status, trailer: bool, input: seq<Byte>, exit: Exit, after: Status, left: seq<Byte>) {
    Run(before, trailer, input) ==
      match exit
      case GoOn => Run(after, trailer, left)
      case Stop(v) => Outcome(v, after, [], left)
  }

  lemma RunStep(s: Status, trailer: bool, input: seq<Byte>)
    requires input != []
    ensures var r := React(s, trailer, input[0]);
            && (r.Refuse? ==> Run(s, trailer, input) == Outcome(Malformed, s, [], input))
            && (r.Finish? ==> Run(s, trailer, input) == Outcome(Complete, r.last, [], input[1..]))
            && (r.Go? ==> Run(s, trailer, input) ==
                          Before(if r.emit then [input[0]] else [], Run(r.next, trailer, input[1..])))
  {
  }

  /** A byte that is taken but not handed out. */
  lemma RunQuiet(s: Status, trailer: bool, input: seq<Byte>)
    requires input != [] && React(s, trailer, input[0]).Go? && !React(s, trailer, input[0]).emit
    ensures Run(s, trailer, input) == Run(React(s, trailer, input[0]).next, trailer, input[1..])
  {
    hide React;
    RunStep(s, trailer, input);
    var o := Run(React(s, trailer, input[0]).next, trailer, input[1..]);
    assert [] + o.out == o.out;
  }

  /** One more digit of a size field. */
  lemma RunDigit(s: Status, trailer: bool, input: seq<Byte>)
    requires input != [] && s.phase == Size && Valid(s)
    requires IsHex(input[0]) && s.hexCount < MAX_HEX
    ensures var next := Status(Size, Accumulate(s.left, DecodeHex(input[0])), s.hexCount + 1);
            Valid(next) && Run(s, trailer, input) == Run(next, trailer, input[1..])
  {
    hide Run, Accumulate, Pow16;
    ReactKeepsValid(s, trailer, input[0]);
    RunQuiet(s, trailer, input);
  }

  lemma CountIsSmall(s: Status)
    requires Valid(s)
    ensures s.hexCount <= MAX_HEX
  {
  }

  /** No digit at all, or one too many. */
  lemma RunBadSize(s: Status, trailer: bool, input: seq<Byte>)
    requires input != [] && s.phase == Size && s.hexCount == if IsHex(input[0]) then MAX_HEX else 0
    ensures Run(s, trailer, input) == Outcome(Malformed, s, [], input)
  {
    hide Run;
    RunStep(s, trailer, input);
  }

  /** The end of a size field is read again as the start of the extension. */
  lemma RunLeavesSize(s: Status, trailer: bool, input: seq<Byte>)
    requires input != [] && s.phase == Size && !IsHex(input[0]) && s.hexCount != 0
    ensures Run(s, trailer, input) == Run(Status(Ext, s.left, 0), trailer, input)
  {
    RunStep(s, trailer, input);
    RunStep(Status(Ext, s.left, 0), trailer, input);
  }

  lemma {:induction false} RunData(s: Status, trailer: bool, input: seq<Byte>)
    requires s.phase == Data && 0 < s.left
    ensures |input| < s.left ==>
              Run(s, trailer, input) == Outcome(Incomplete, s.(left := s.left - |input|), input, [])
    ensures s.left <= |input| ==>
              Run(s, trailer, input) ==
              Before(input[..s.left], Run(Status(Crlf, 0, s.hexCount), trailer, input[s.left..]))
    decreases |input|
  {
    hide Run;
    if input == [] {
      RunEmpty(s, trailer);
    } else {
      RunStep(s, trailer, input);
      if s.left == 1 {
        assert [input[0]] == input[..1];
      } else {
        RunData(s.(left := s.left - 1), trailer, input[1..]);
        assert [input[0]] + input[1..] == input;
        if s.left <= |input| {
          assert input[1..][s.left - 1..] == input[s.left..];
          var o := Run(Status(Crlf, 0, s.hexCount), trailer, input[s.left..]);
          assert [input[0]] + (input[1..][..s.left - 1] + o.out) == input[..s.left] + o.out;
        }
      }
    }
  }

  lemma BeforeTwice(a: seq<Byte>, b: seq<Byte>, o: Outcome)
    ensures Before(a, Before(b, o)) == Before(a + b, o)
  {
    assert a + (b + o.out) == a + b + o.out;
  }

  class Decoder {
    const consumeTrailer: bool
    var bytesLeftInChunk: nat
    var hexCount: nat
    var phase: Phase

    constructor (consumeTrailer: bool)
      ensures this.consumeTrailer == consumeTrailer && Current() == START
    {
      this.consumeTrailer := consumeTrailer;
      bytesLeftInChunk, hexCount, phase := 0, 0, Size;
    }

    function Current(): Status
      reads this
    {
      Status(phase, bytesLeftInChunk, hexCount)
    }

    /** case CHUNKED_IN_CHUNK_SIZE */
    method ReadSize(buf: array<Byte>, start: nat, end: nat) returns (src: nat, exit: Exit)
      requires start <= end <= buf.Length && phase == Size && Valid(Current())
      modifies this
      ensures Valid(Current())
      ensures start <= src <= end && (exit == GoOn ==> phase == Ext)
      ensures Follows(old(Current()), consumeTrailer, buf[start..end], exit, Current(), buf[src..end])
    {
      hide Run, React, Valid, Accumulate, DecodeHex;
      CountIsSmall(Current());
      src := start;
      exit := GoOn;
      while true
        invariant start <= src <= end && phase == Size && Valid(Current()) && hexCount <= MAX_HEX
        invariant Run(Current(), consumeTrailer, buf[src..end]) == Run(old(Current()), consumeTrailer, buf[start..end])
        decreases end - src
      {
        if src == end {
          RunEmpty(Current(), consumeTrailer);
          return src, Stop(Incomplete);
        }
        ghost var unread := buf[src..end];
        assert unread[0] == buf[src] && unread[1..] == buf[src + 1..end];
        var v := DecodeHex(buf[src]);
        if v == -1 {
          if hexCount == 0 {
            RunBadSize(Current(), consumeTrailer, unread);
            return src, Stop(Malformed);
          }
          RunLeavesSize(Current(), consumeTrailer, unread);
          break;
        }
        if hexCount == MAX_HEX {
          RunBadSize(Current(), consumeTrailer, unread);
          return src, Stop(Malformed);
        }
        RunDigit(Current(), consumeTrailer, unread);
        bytesLeftInChunk := Accumulate(bytesLeftInChunk, v);
        hexCount := hexCount + 1;
        src := src + 1;
      }
      SizeFits(Current());
      hexCount := 0;
      phase := Ext;
    }

    /** case CHUNKED_IN_CHUNK_EXT */
    method ReadExt(buf: array<Byte>, start: nat, end: nat) returns (src: nat, exit: Exit)
      requires start <= end <= buf.Length && phase == Ext && Valid(Current())
      modifies this
      ensures Valid(Current())
      ensures start <= src <= end && (exit == GoOn ==> start < src)
      ensures Follows(old(Current()), consumeTrailer, buf[start..end], exit, Current(), buf[src..end])
    {
      hide Run;
      src := start;
      exit := GoOn;
      while true
        invariant start <= src <= end && Current() == old(Current())
        invariant Run(Current(), consumeTrailer, buf[src..end]) == Run(old(Current()), consumeTrailer, buf[start..end])
        decreases end - src
      {
        if src == end {
          RunEmpty(Current(), consumeTrailer);
          return src, Stop(Incomplete);
        }
        ghost var unread := buf[src..end];
        assert unread[0] == buf[src] && unread[1..] == buf[src + 1..end];
        if buf[src] == LF {
          break;
        }
        RunQuiet(Current(), consumeTrailer, unread);
        src := src + 1;
      }
      RunStep(Current(), consumeTrailer, buf[src..end]);
      if bytesLeftInChunk != 0 || consumeTrailer {
        RunQuiet(Current(), consumeTrailer, buf[src..end]);
      }
      src := src + 1;
      if bytesLeftInChunk == 0 {
        if consumeTrailer {
          phase := TrailerHead;
        } else {
          exit := Stop(Complete);
        }
      } else {
        phase := Data;
      }
    }

    /** case CHUNKED_IN_CHUNK_CRLF */
    method ReadCrlf(buf: array<Byte>, start: nat, end: nat) returns (src: nat, exit: Exit)
      requires start <= end <= buf.Length && phase == Crlf && Valid(Current())
      modifies this
      ensures Valid(Current())
      ensures start <= src <= end && (exit == GoOn ==> start < src)
      ensures Follows(old(Current()), consumeTrailer, buf[start..end], exit, Current(), buf[src..end])
    {
      hide Run;
      src := start;
      while true
        invariant start <= src <= end && Current() == old(Current())
        invariant Run(Current(), consumeTrailer, buf[src..end]) == Run(old(Current()), consumeTrailer, buf[start..end])
        decreases end - src
      {
        if src == end {
          RunEmpty(Current(), consumeTrailer);
          return src, Stop(Incomplete);
        }
        ghost var unread := buf[src..end];
        assert unread[0] == buf[src] && unread[1..] == buf[src + 1..end];
        if buf[src] != CR {
          break;
        }
        RunQuiet(Current(), consumeTrailer, unread);
        src := src + 1;
      }
      RunStep(Current(), consumeTrailer, buf[src..end]);
      if buf[src] != LF {
        return src, Stop(Malformed);
      }
      RunQuiet(Current(), consumeTrailer, buf[src..end]);
      src := src + 1;
      phase := Size;
      exit := GoOn;
    }

    /** case CHUNKED_IN_TRAILERS_LINE_HEAD */
    method ReadTrailerHead(buf: array<Byte>, start: nat, end: nat) returns (src: nat, exit: Exit)
      requires start <= end <= buf.Length && phase == TrailerHead && Valid(Current())
      modifies this
      ensures Valid(Current())
      ensures start <= src <= end && (exit == GoOn ==> start < src)
      ensures Follows(old(Current()), consumeTrailer, buf[start..end], exit, Current(), buf[src..end])
    {
      hide Run;
      src := start;
      while true
        invariant start <= src <= end && Current() == old(Current())
        invariant Run(Current(), consumeTrailer, buf[src..end]) == Run(old(Current()), consumeTrailer, buf[start..end])
        decreases end - src
      {
        if src == end {
          RunEmpty(Current(), consumeTrailer);
          return src, Stop(Incomplete);
        }
        ghost var unread := buf[src..end];
        assert unread[0] == buf[src] && unread[1..] == buf[src + 1..end];
        if buf[src] != CR {
          break;
        }
        RunQuiet(Current(), consumeTrailer, unread);
        src := src + 1;
      }
      ghost var unread := buf[src..end];
      assert unread[0] == buf[src] && unread[1..] == buf[src + 1..end];
      RunStep(Current(), consumeTrailer, unread);
      src := src + 1;
      if buf[src - 1] == LF {
        return src, Stop(Complete);
      }
      RunQuiet(Current(), consumeTrailer, unread);
      phase := TrailerMiddle;
      exit := GoOn;
    }

    /** case CHUNKED_IN_TRAILERS_LINE_MIDDLE */
    method ReadTrailerMiddle(buf: array<Byte>, start: nat, end: nat) returns (src: nat, exit: Exit)
      requires start <= end <= buf.Length && phase == TrailerMiddle && Valid(Current())
      modifies this
      ensures Valid(Current())
      ensures start <= src <= end && (exit == GoOn ==> start < src)
      ensures Follows(old(Current()), consumeTrailer, buf[start..end], exit, Current(), buf[src..end])
    {
      hide Run;
      src := start;
      while true
        invariant start <= src <= end && Current() == old(Current())
        invariant Run(Current(), consumeTrailer, buf[src..end]) == Run(old(Current()), consumeTrailer, buf[start..end])
        decreases end - src
      {
        if src == end {
          RunEmpty(Current(), consumeTrailer);
          return src, Stop(Incomplete);
        }
        ghost var unread := buf[src..end];
        assert unread[0] == buf[src] && unread[1..] == buf[src + 1..end];
        RunQuiet(Current(), consumeTrailer, unread);
        if buf[src] == LF {
          break;
        }
        src := src + 1;
      }
      src := src + 1;
      phase := TrailerHead;
      exit := GoOn;
    }

    /** The cases of the switch that hand out nothing. */
    method ReadFraming(buf: array<Byte>, start: nat, end: nat) returns (src: nat, exit: Exit)
      requires start <= end <= buf.Length && phase != Data && Valid(Current())
      modifies this
      ensures Valid(Current())
      ensures start <= src <= end && (exit == GoOn ==> start < src || (old(phase) == Size && phase != Size))
      ensures Follows(old(Current()), consumeTrailer, buf[start..end], exit, Current(), buf[src..end])
    {
      hide Follows, Valid;
      match phase
      case Size => src, exit := ReadSize(buf, start, end);
      case Ext => src, exit := ReadExt(buf, start, end);
      case Crlf => src, exit := ReadCrlf(buf, start, end);
      case TrailerHead => src, exit := ReadTrailerHead(buf, start, end);
      case TrailerMiddle => src, exit := ReadTrailerMiddle(buf, start, end);
    }

    /** case CHUNKED_IN_CHUNK_DATA: the body bytes move down to `dst` in one go. */
    method ReadData(buf: array<Byte>, dst: nat, src: nat, end: nat) returns (n: nat, exit: Exit)
      requires dst <= src <= end <= buf.Length && phase == Data && Valid(Current())
      modifies this, buf
      ensures Valid(Current()) && src + n <= end && (exit == GoOn ==> 0 < n)
      ensures exit != GoOn ==> src + n == end && exit == Stop(Incomplete)
      ensures buf[..] == Moved(old(buf[..]), dst, src, src + n)
      ensures Run(old(Current()), consumeTrailer, old(buf[src..end])) == Before(old(buf[src..src + n]),
                if exit == GoOn then Run(Current(), consumeTrailer, old(buf[src + n..end]))
                else Outcome(Incomplete, Current(), [], []))
    {
      hide Run, Moved;
      ghost var input := buf[src..end];
      RunData(Current(), consumeTrailer, input);
      var avail := end - src;
      if avail < bytesLeftInChunk {
        n, exit := avail, Stop(Incomplete);
        assert buf[src..src + n] == input;
      } else {
        n, exit := bytesLeftInChunk, GoOn;
        assert buf[src..src + n] == input[..n] && buf[src + n..end] == input[n..];
      }
      MoveDown(buf, dst, src, n);
      bytesLeftInChunk := bytesLeftInChunk - n;
      if exit == GoOn {
        phase := Crlf;
      }
    }

    /** One turn of the switch: `emitted` is what it adds to the body. */
    method ReadCase(buf: array<Byte>, dst0: nat, src0: nat, end: nat)
        returns (dst: nat, src: nat, exit: Exit, ghost emitted: seq<Byte>)
      requires dst0 <= src0 <= end <= buf.Length && Valid(Current())
      modifies this, buf
      ensures Valid(Current()) && dst <= src <= end
      ensures src0 <= src && (exit == GoOn ==> src0 < src || (old(phase) == Size && phase != Size))
      ensures buf[src..] == old(buf[..])[src..]
      ensures buf[..dst] == old(buf[..dst0]) + emitted
      ensures Run(old(Current()), consumeTrailer, old(buf[src0..end])) ==
              Before(emitted, Ended(exit, Current(), buf[src..end]))
    {
      hide Run, Valid, Moved;
      ghost var was := buf[..];
      if phase == Data {
        var n;
        n, exit := ReadData(buf, dst0, src0, end);
        dst, src := dst0 + n, src0 + n;
        emitted := was[src0..src];
        MovedPieces(was, dst0, src0, src);
        SameTail(was, buf[..], src, end);
      } else {
        dst, emitted := dst0, [];
        src, exit := ReadFraming(buf, src0, end);
        assert buf[..dst] == was[..dst0] + emitted;
        assert [] + Ended(exit, Current(), buf[src..end]).out == Ended(exit, Current(), buf[src..end]).out;
      }
    }

    /** What the automaton says of the unread bytes when a case ends this way. */
    ghost function Ended(exit: Exit, now: Status, unread: seq<Byte>): Outcome {
      match exit
      case GoOn => Run(now, consumeTrailer, unread)
      case Stop(v) => Outcome(v, now, [], unread)
    }

    /** The while loop: body bytes gather in front of `dst`, `src` is where reading ended. */
    method DecodeBody(buf: array<Byte>, bufsz: nat) returns (dst: nat, src: nat, verdict: Verdict)
      requires bufsz <= buf.Length && Valid(Current())
      modifies this, buf
      ensures Valid(Current()) && dst <= src <= bufsz
      ensures buf[src..] == old(buf[src..])
      ensures Run(old(Current()), consumeTrailer, old(buf[..bufsz])) ==
              Outcome(verdict, Current(), buf[..dst], buf[src..bufsz])
    {
      hide Run, Valid;
      ghost var input, begun, whole := buf[..bufsz], Current(), buf[..];
      dst, src := 0, 0;
      var exit := GoOn;
      assert buf[0..bufsz] == input;
      while exit == GoOn
        invariant dst <= src <= bufsz
        invariant buf[src..] == whole[src..] && Valid(Current())
        invariant Run(begun, consumeTrailer, input) == Before(buf[..dst], Ended(exit, Current(), buf[src..bufsz]))
        decreases exit == GoOn, bufsz - src, if phase == Size then 1 else 0
      {
        ghost var done, at, emitted := buf[..dst], src, [];
        ghost var was := buf[..];
        dst, src, exit, emitted := ReadCase(buf, dst, src, bufsz);
        assert was[src..] == was[at..][src - at..] && whole[at..][src - at..] == whole[src..];
        BeforeTwice(done, emitted, Ended(exit, Current(), buf[src..bufsz]));
      }
      verdict := exit.verdict;
    }

    /** phr_decode_chunked. `size` is the value left in *_bufsz. */
    method Decode(buf: array<Byte>, bufsz: nat) returns (ret: int, size: nat)
      requires bufsz <= buf.Length && Valid(Current())
      modifies this, buf
      ensures var o := Run(old(Current()), consumeTrailer, old(buf[..bufsz]));
              && ret == (match o.verdict case Incomplete => -2 case Malformed => -1 case Complete => |o.rest|)
              && Current() == o.status
              && size == |o.out| && size + |o.rest| <= bufsz
              && buf[..size] == o.out && buf[size..size + |o.rest|] == o.rest
      ensures buf[bufsz..] == old(buf[bufsz..]) && Valid(Current())
    {
      hide Run, Valid, Moved;
      ghost var begun := buf[..];
      var src, verdict;
      size, src, verdict := DecodeBody(buf, bufsz);
      ghost var was := buf[..];
      assert begun[src..] == was[src..];
      assert begun[bufsz..] == begun[src..][bufsz - src..];
      assert was[bufsz..] == was[src..][bufsz - src..];
      MoveDown(buf, size, src, bufsz - src);
      MovedPieces(was, size, src, bufsz);
      assert buf[bufsz..] == buf[..][bufsz..];
      ret := match verdict case Complete => bufsz - src case Malformed => MALFORMED case Incomplete => INCOMPLETE;
    }
  }
}
