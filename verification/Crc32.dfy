/** crc32.c: the checksum by table, and the shift register it stands for. */
module Crc32 {
  import opened Crc32Table

  /** crc ^ ~0U */
  function Complement(c: bv32): bv32 {
    c ^ 0xFFFF_FFFF
  }

  /** What the loop does to the register for one byte. */
  function ByTable(c: bv32, b: bv8): bv32 {
    Mix(Table(LowByte(Mix(c, b as bv32))), HighBytes(c))
  }

  function Mix(a: bv32, b: bv32): bv32 { a ^ b }

  function LowByte(x: bv32): bv32 { x & 0xFF }

  function HighBytes(x: bv32): bv32 { x >> 8 }

  function Updated(c: bv32, bytes: seq<bv8>): bv32
    decreases |bytes|
  {
    if bytes == [] then c else Updated(ByTable(c, bytes[0]), bytes[1..])
  }

  /** crc32(crc, buf, size) */
  function Crc(crc: bv32, bytes: seq<bv8>): bv32 {
    Complement(Updated(Complement(crc), bytes))
  }

  method Crc32(crc0: bv32, buf: seq<bv8>) returns (crc: bv32)
    ensures crc == Crc(crc0, buf)
    ensures crc == SerialCrc(crc0, buf)
  {
    hide Complement, ByTable;
    crc := Complement(crc0);
    var i := 0;
    while i < |buf|
      invariant i <= |buf|
      invariant Updated(crc, buf[i..]) == Updated(Complement(crc0), buf)
    {
      assert buf[i..][0] == buf[i] && buf[i..][1..] == buf[i + 1..];
      crc := ByTable(crc, buf[i]);
      i := i + 1;
    }
    crc := Complement(crc);
    TableMatchesRegister(crc0, buf);
  }

  // ----- The reference: a register that takes one message bit at a time -----

  function LowBit(b: bv32): bv32 { b & 1 }

  function Half(b: bv32): bv32 { b >> 1 }

  /** The lowest n bits of b, low bit first, shifted into the register. */
  function Shifted(c: bv32, b: bv32, n: nat): bv32
    decreases n
  {
    if n == 0 then c else Shifted(Step(Mix(c, LowBit(b))), Half(b), n - 1)
  }

  function Serial(c: bv32, bytes: seq<bv8>): bv32
    decreases |bytes|
  {
    if bytes == [] then c else Serial(Shifted(c, bytes[0] as bv32, 8), bytes[1..])
  }

  /** The reflected CRC with the polynomial 0xEDB88320, all ones before and after. */
  function SerialCrc(crc: bv32, bytes: seq<bv8>): bv32 {
    Complement(Serial(Complement(crc), bytes))
  }

  // ----- Facts about single words ------------------------------------------

  lemma StepByWords(c: bv32)
    ensures Step(c) == if LowBit(c) == 1 then Mix(Half(c), POLYNOMIAL) else Half(c)
  {
  }

  lemma SameLowBit(c: bv32, b: bv32)
    ensures LowBit(Mix(c, b)) == LowBit(Mix(c, LowBit(b)))
  {
  }

  lemma HalfOfMix(c: bv32, b: bv32)
    ensures Half(Mix(c, b)) == Mix(Half(Mix(c, LowBit(b))), Half(b))
  {
  }

  lemma MixTurns(a: bv32, b: bv32, c: bv32)
    ensures Mix(Mix(a, b), c) == Mix(Mix(a, c), b)
  {
    hide Mix;
    MixAssociates(a, b, c);
    MixAssociates(a, c, b);
    MixCommutes(b, c);
  }

  lemma MixAssociates(a: bv32, b: bv32, c: bv32)
    ensures Mix(Mix(a, b), c) == Mix(a, Mix(b, c))
  {
  }

  lemma MixCommutes(a: bv32, b: bv32)
    ensures Mix(a, b) == Mix(b, a)
  {
  }

  /** A register step on bits that wait above the lowest one. */
  lemma StepIsLinear(c: bv32, b: bv32)
    ensures Step(Mix(c, b)) == Mix(Step(Mix(c, LowBit(b))), Half(b))
  {
    hide Step, Mix, LowBit, Half;
    var d := Mix(c, LowBit(b));
    SameLowBit(c, b);
    HalfOfMix(c, b);
    StepByWords(Mix(c, b));
    StepByWords(d);
    MixTurns(Half(d), Half(b), POLYNOMIAL);
  }

  lemma MixZero(c: bv32)
    ensures Mix(c, 0) == c
  {
  }

  lemma FourHalves(b: bv32)
    ensures Half(Half(Half(Half(b)))) == b >> 4
    ensures b & 0xF == 0 ==>
              LowBit(b) == 0 && LowBit(Half(b)) == 0 && LowBit(Half(Half(b))) == 0 && LowBit(Half(Half(Half(b)))) == 0
  {
  }

  lemma HighPart(x: bv32)
    ensures var high := x & 0xFFFF_FF00;
            && Mix(LowByte(x), high) == x && high >> 4 >> 4 == HighBytes(x)
            && high & 0xF == 0 && (high >> 4) & 0xF == 0
  {
  }

  lemma BytePart(c: bv32, b: bv8)
    ensures var x := Mix(c, b as bv32);
            && HighBytes(x) == HighBytes(c) && LowByte(x) <= 0xFF
            && (b as bv32) >> 4 >> 4 == 0
  {
  }

  lemma ComplementTwice(x: bv32)
    ensures Complement(Complement(x)) == x
  {
  }

  // ----- Many steps --------------------------------------------------------

  function Steps(c: bv32, n: nat): bv32
    decreases n
  {
    if n == 0 then c else Steps(Step(c), n - 1)
  }

  /** b halved n times. */
  function Dropped(b: bv32, n: nat): bv32
    decreases n
  {
    if n == 0 then b else Dropped(Half(b), n - 1)
  }

  /** The n lowest bits of b are zero. */
  predicate LowZeros(b: bv32, n: nat)
    decreases n
  {
    n == 0 || (LowBit(b) == 0 && LowZeros(Half(b), n - 1))
  }

  /** Shifting all bits of b in one by one is the same as mixing them in first. */
  lemma {:induction false} ShiftedIsSteps(c: bv32, b: bv32, n: nat)
    requires Dropped(b, n) == 0
    ensures Shifted(c, b, n) == Steps(Mix(c, b), n)
    decreases n
  {
    hide Step, Mix, LowBit, Half;
    if n == 0 {
      MixZero(c);
    } else {
      StepIsLinear(c, b);
      ShiftedIsSteps(Step(Mix(c, LowBit(b))), Half(b), n - 1);
    }
  }

  /** Bits above the ones that are stepped out only move. */
  lemma {:induction false} HighBitsMove(c: bv32, b: bv32, n: nat)
    requires LowZeros(b, n)
    ensures Steps(Mix(c, b), n) == Mix(Steps(c, n), Dropped(b, n))
    decreases n
  {
    hide Step, Mix, LowBit, Half;
    if n != 0 {
      StepIsLinear(c, b);
      MixZero(c);
      HighBitsMove(Step(c), Half(b), n - 1);
    }
  }

  lemma FourMore(b: bv32, n: nat)
    ensures Dropped(b, n + 4) == Dropped(b >> 4, n)
    ensures b & 0xF == 0 && LowZeros(b >> 4, n) ==> LowZeros(b, n + 4)
    ensures Steps(b, n + 4) == Steps(Step4(b), n)
  {
    hide Step, LowBit, Half;
    FourHalves(b);
    var h1, s1 := Half(b), Step(b);
    var h2, s2 := Half(h1), Step(s1);
    var h3, s3 := Half(h2), Step(s2);
    var h4, s4 := Half(h3), Step(s3);
    assert Dropped(h3, n + 1) == Dropped(h4, n) && Steps(s3, n + 1) == Steps(s4, n);
    assert Dropped(h2, n + 2) == Dropped(h4, n) && Steps(s2, n + 2) == Steps(s4, n);
    assert Dropped(h1, n + 3) == Dropped(h4, n) && Steps(s1, n + 3) == Steps(s4, n);
    if b & 0xF == 0 && LowZeros(h4, n) {
      assert LowZeros(h3, n + 1);
      assert LowZeros(h2, n + 2);
      assert LowZeros(h1, n + 3);
    }
  }

  lemma EightMore(b: bv32)
    ensures Dropped(b, 8) == b >> 4 >> 4
    ensures b & 0xF == 0 && (b >> 4) & 0xF == 0 ==> LowZeros(b, 8)
    ensures Steps(b, 8) == Step8(b)
  {
    hide Step4, Dropped, LowZeros, Steps;
    FourMore(b, 4);
    JustFour(b >> 4);
    JustFour(Step4(b));
  }

  lemma JustFour(b: bv32)
    ensures Dropped(b, 4) == b >> 4
    ensures b & 0xF == 0 ==> LowZeros(b, 4)
    ensures Steps(b, 4) == Step4(b)
  {
    hide Step4;
    FourMore(b, 0);
  }

  /** Eight steps act on the low byte; the rest of the register only moves. */
  lemma StepsSplit(x: bv32)
    ensures Step8(x) == Mix(Step8(LowByte(x)), HighBytes(x))
  {
    hide Step8, Mix, Steps, LowZeros, Dropped, LowByte, HighBytes;
    var low, high := LowByte(x), x & 0xFFFF_FF00;
    HighPart(x);
    EightMore(high);
    EightMore(x);
    EightMore(low);
    HighBitsMove(low, high, 8);
  }

  lemma ByTableIsSteps(c: bv32, b: bv8)
    ensures ByTable(c, b) == Step8(Mix(c, b as bv32))
  {
    hide Step8, Table, Mix, LowByte, HighBytes;
    var x := Mix(c, b as bv32);
    BytePart(c, b);
    StepsSplit(x);
    TableIsSteps(LowByte(x));
  }

  /** One table look-up is eight shifts of the register. */
  lemma ByTableIsShifted(c: bv32, b: bv8)
    ensures ByTable(c, b) == Shifted(c, b as bv32, 8)
  {
    hide Step8, Shifted, Steps, Dropped, LowZeros, ByTable, Mix;
    ByTableIsSteps(c, b);
    BytePart(c, b);
    EightMore(b as bv32);
    ShiftedIsSteps(c, b as bv32, 8);
    EightMore(Mix(c, b as bv32));
  }

  lemma {:induction false} UpdatedIsSerial(c: bv32, bytes: seq<bv8>)
    ensures Updated(c, bytes) == Serial(c, bytes)
    decreases |bytes|
  {
    hide ByTable, Shifted;
    if bytes != [] {
      ByTableIsShifted(c, bytes[0]);
      UpdatedIsSerial(ByTable(c, bytes[0]), bytes[1..]);
    }
  }

  /** The table form computes what the bit-by-bit register computes, on every message. */
  lemma TableMatchesRegister(crc: bv32, bytes: seq<bv8>)
    ensures Crc(crc, bytes) == SerialCrc(crc, bytes)
  {
    UpdatedIsSerial(Complement(crc), bytes);
  }

  // ----- Messages in pieces ------------------------------------------------

  lemma {:induction false} UpdatedAppend(c: bv32, a: seq<bv8>, b: seq<bv8>)
    ensures Updated(c, a + b) == Updated(Updated(c, a), b)
    decreases |a|
  {
    hide ByTable;
    if a == [] {
      assert a + b == b;
    } else {
      assert (a + b)[1..] == a[1..] + b;
      UpdatedAppend(ByTable(c, a[0]), a[1..], b);
    }
  }

  /** The checksum of the first part, handed in with the second, gives the checksum of
      the whole. */
  lemma CrcAppend(crc: bv32, a: seq<bv8>, b: seq<bv8>)
    ensures Crc(Crc(crc, a), b) == Crc(crc, a + b)
  {
    hide Updated, Complement;
    UpdatedAppend(Complement(crc), a, b);
    ComplementTwice(Updated(Complement(crc), a));
  }

  // ----- The standard form -------------------------------------------------

  /** All ones go in before the message and are taken out behind it. */
  lemma OnesBeforeAndAfter(bytes: seq<bv8>)
    ensures Crc(0, bytes) == Serial(0xFFFF_FFFF, bytes) ^ 0xFFFF_FFFF
  {
    hide Updated, Serial;
    TableMatchesRegister(0, bytes);
    assert Complement(0) == 0xFFFF_FFFF;
  }

  /** The digits 1 to 9 in ASCII. */
  const ONE_TO_NINE: seq<bv8> := [0x31, 0x32, 0x33, 0x34, 0x35, 0x36, 0x37, 0x38, 0x39]

  lemma UpdatedNext(c: bv32, bytes: seq<bv8>, d: bv32)
    requires bytes != [] && ByTable(c, bytes[0]) == d
    ensures Updated(c, bytes) == Updated(d, bytes[1..])
  {
    hide ByTable;
  }

  lemma Digit1()
    ensures ByTable(0xFFFFFFFF, 0x31) == 0x7C231048
  {
  }

  lemma Digit2()
    ensures ByTable(0x7C231048, 0x32) == 0xB0ACBB32
  {
  }

  lemma Digit3()
    ensures ByTable(0xB0ACBB32, 0x33) == 0x77B79C2D
  {
  }

  lemma Digit4()
    ensures ByTable(0x77B79C2D, 0x34) == 0x641C1F5C
  {
  }

  lemma Digit5()
    ensures ByTable(0x641C1F5C, 0x35) == 0x340AC5E3
  {
  }

  lemma Digit6()
    ensures ByTable(0x340AC5E3, 0x36) == 0xF68D2C9E
  {
  }

  lemma Digit7()
    ensures ByTable(0xF68D2C9E, 0x37) == 0xAFFC9660
  {
  }

  lemma Digit8()
    ensures ByTable(0xAFFC9660, 0x38) == 0x651F2550
  {
  }

  lemma Digit9()
    ensures ByTable(0x651F2550, 0x39) == 0x340BC6D9
  {
  }

  /** The check value of this CRC. */
  lemma CheckValue()
    ensures Crc(0, ONE_TO_NINE) == 0xCBF4_3926
  {
    hide Updated, ByTable;
    var m := ONE_TO_NINE;
    Digit1();
    UpdatedNext(0xFFFFFFFF, m[0..], 0x7C231048);
    assert m[0..][1..] == m[1..];
    Digit2();
    UpdatedNext(0x7C231048, m[1..], 0xB0ACBB32);
    assert m[1..][1..] == m[2..];
    Digit3();
    UpdatedNext(0xB0ACBB32, m[2..], 0x77B79C2D);
    assert m[2..][1..] == m[3..];
    Digit4();
    UpdatedNext(0x77B79C2D, m[3..], 0x641C1F5C);
    assert m[3..][1..] == m[4..];
    Digit5();
    UpdatedNext(0x641C1F5C, m[4..], 0x340AC5E3);
    assert m[4..][1..] == m[5..];
    Digit6();
    UpdatedNext(0x340AC5E3, m[5..], 0xF68D2C9E);
    assert m[5..][1..] == m[6..];
    Digit7();
    UpdatedNext(0xF68D2C9E, m[6..], 0xAFFC9660);
    assert m[6..][1..] == m[7..];
    Digit8();
    UpdatedNext(0xAFFC9660, m[7..], 0x651F2550);
    assert m[7..][1..] == m[8..];
    Digit9();
    UpdatedNext(0x651F2550, m[8..], 0x340BC6D9);
    assert m[8..][1..] == m[9..];
    assert m[0..] == m && m[9..] == [];
    NothingMore(0x340BC6D9);
    assert Complement(0) == 0xFFFFFFFF;
  }

  lemma NothingMore(c: bv32)
    ensures Updated(c, []) == c
  {
  }
}
