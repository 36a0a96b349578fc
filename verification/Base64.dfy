/** base64.c: Base64encode and Base64decode (section 4 of RFC 4648). Shifts and masks of
    bytes are written as divisions and remainders. */
module Base64 {

  type Byte = b: int | 0 <= b < 256

  type Sextet = v: int | 0 <= v < 64

  const NUL: Byte := 0
  const PAD: Byte := 61
  const NOT_CODED: int := 64

  /** basis_64, range by range */
  function Basis(v: Sextet): Byte {
    if v < 26 then 65 + v
    else if v < 52 then 97 + v - 26
    else if v < 62 then 48 + v - 52
    else if v == 62 then 43 else 47
  }

  /** pr2six, range by range */
  function Pr2Six(c: Byte): (v: int)
    ensures 0 <= v <= NOT_CODED
  {
    if 65 <= c <= 90 then c - 65
    else if 97 <= c <= 122 then c - 97 + 26
    else if 48 <= c <= 57 then c - 48 + 52
    else if c == 43 then 62
    else if c == 47 then 63
    else NOT_CODED
  }

  lemma TablesAreInverse(v: Sextet)
    ensures Pr2Six(Basis(v)) == v
  {
  }

  // ----- Encoding ----------------------------------------------------------

  function First(a: Byte): Sextet { a / 4 }
  function Second(a: Byte, b: Byte): Sextet { a % 4 * 16 + b / 16 }
  function Third(b: Byte, c: Byte): Sextet { b % 16 * 4 + c / 64 }
  function Fourth(c: Byte): Sextet { c % 64 }

  /** How many characters n bytes take. */
  function TextLen(n: nat): nat {
    (n + 2) / 3 * 4
  }

  /** The text for s, without its terminator. */
  function Encoded(s: seq<Byte>): (t: seq<Byte>)
    ensures |t| == TextLen(|s|)
  {
    if s == [] then []
    else if |s| == 1 then [Basis(First(s[0])), Basis(Second(s[0], 0)), PAD, PAD]
    else if |s| == 2 then [Basis(First(s[0])), Basis(Second(s[0], s[1])), Basis(Third(s[1], 0)), PAD]
    else Quad(s[0], s[1], s[2]) + Encoded(s[3..])
  }

  function Quad(a: Byte, b: Byte, c: Byte): seq<Byte> {
    [Basis(First(a)), Basis(Second(a, b)), Basis(Third(b, c)), Basis(Fourth(c))]
  }

  /** Base64encode_len */
  function EncodeLen(len: nat): nat {
    TextLen(len) + 1
  }

  /** Four characters written where p stands. */
  method WriteFour(encoded: array<Byte>, n: nat, a: Byte, b: Byte, c: Byte, d: Byte) returns (p: nat)
    requires n + 4 <= encoded.Length
    modifies encoded
    ensures p == n + 4 && encoded[..p] == old(encoded[..n]) + [a, b, c, d]
    ensures encoded[p..] == old(encoded[p..])
  {
    p := n;
    encoded[p] := a;
    encoded[p + 1] := b;
    encoded[p + 2] := c;
    encoded[p + 3] := d;
    p := p + 4;
  }

  /** The loop over whole groups of three bytes. */
  method EncodeGroups(encoded: array<Byte>, s: seq<Byte>) returns (i: nat, n: nat)
    requires EncodeLen(|s|) <= encoded.Length
    modifies encoded
    ensures i <= |s| <= i + 2 && n + |Encoded(s[i..])| == |Encoded(s)|
    ensures Encoded(s) == encoded[..n] + Encoded(s[i..])
    ensures encoded[n..] == old(encoded[n..])
  {
    hide Basis, First, Second, Third, Fourth, Encoded, TextLen;
    ghost var tail := encoded[..];
    i, n := 0, 0;
    assert s[0..] == s;
    while i < |s| - 2
      invariant i <= |s| && n + |Encoded(s[i..])| == |Encoded(s)|
      invariant Encoded(s) == encoded[..n] + Encoded(s[i..])
      invariant encoded[n..] == tail[n..]
    {
      EncodedGroup(s[i..]);
      assert s[i..][3..] == s[i + 3..];
      ghost var at, done := n, encoded[..n];
      n := WriteFour(encoded, n, Basis(First(s[i])), Basis(Second(s[i], s[i + 1])),
                     Basis(Third(s[i + 1], s[i + 2])), Basis(Fourth(s[i + 2])));
      assert tail[at..][4..] == tail[n..];
      JoinText(done, Quad(s[i], s[i + 1], s[i + 2]), Encoded(s[i + 3..]));
      i := i + 3;
    }
  }

  lemma JoinText(a: seq<Byte>, b: seq<Byte>, c: seq<Byte>)
    ensures a + (b + c) == a + b + c
  {
  }

  /** The group with padding, when one or two bytes are left. */
  method EncodeRest(encoded: array<Byte>, s: seq<Byte>, i: nat, n0: nat) returns (n: nat)
    requires i <= |s| <= i + 2 && n0 + |Encoded(s[i..])| <= encoded.Length
    modifies encoded
    ensures n == n0 + |Encoded(s[i..])|
    ensures encoded[..n] == old(encoded[..n0]) + Encoded(s[i..])
    ensures encoded[n..] == old(encoded[n..])
  {
    hide Basis, First, Second, Third, Fourth, Encoded, TextLen;
    ghost var tail := encoded[n0..];
    EncodedRest(s[i..]);
    n := n0;
    if i < |s| {
      if i == |s| - 1 {
        n := WriteFour(encoded, n, Basis(First(s[i])), Basis(Second(s[i], 0)), PAD, PAD);
      } else {
        n := WriteFour(encoded, n, Basis(First(s[i])), Basis(Second(s[i], s[i + 1])), Basis(Third(s[i + 1], 0)), PAD);
      }
    }
  }

  /** Base64encode writes the text with its terminator and returns how much it wrote. */
  method Encode(encoded: array<Byte>, s: seq<Byte>) returns (n: nat)
    requires EncodeLen(|s|) <= encoded.Length
    modifies encoded
    ensures n == EncodeLen(|s|)
    ensures encoded[..n] == Encoded(s) + [NUL]
    ensures encoded[n..] == old(encoded[n..])
  {
    ghost var before := encoded[..];
    var i;
    i, n := EncodeGroups(encoded, s);
    n := EncodeRest(encoded, s, i, n);
    ghost var tail := encoded[n..];
    assert tail == before[n..];
    encoded[n] := NUL;
    n := n + 1;
    assert encoded[n..] == tail[1..];
  }

  lemma EncodedGroup(s: seq<Byte>)
    requires 2 < |s|
    ensures Encoded(s) == Quad(s[0], s[1], s[2]) + Encoded(s[3..])
  {
  }

  lemma EncodedRest(s: seq<Byte>)
    requires |s| <= 2
    ensures Encoded(s) == if s == [] then []
                          else if |s| == 1 then [Basis(First(s[0])), Basis(Second(s[0], 0)), PAD, PAD]
                          else [Basis(First(s[0])), Basis(Second(s[0], s[1])), Basis(Third(s[1], 0)), PAD]
  {
  }

  // ----- Decoding ----------------------------------------------------------

  /** The coded characters at the start of a text. */
  function Coded(t: seq<Byte>): (v: seq<Sextet>)
    ensures |v| <= |t|
    ensures forall i | 0 <= i < |v| :: v[i] == Pr2Six(t[i])
    ensures |v| < |t| ==> Pr2Six(t[|v|]) == NOT_CODED
  {
    if t == [] || Pr2Six(t[0]) == NOT_CODED then [] else [Pr2Six(t[0])] + Coded(t[1..])
  }

  function FirstByte(a: Sextet, b: Sextet): Byte { a * 4 + b / 16 }
  function SecondByte(b: Sextet, c: Sextet): Byte { b % 16 * 16 + c / 4 }
  function ThirdByte(c: Sextet, d: Sextet): Byte { c % 4 * 64 + d }

  /** How many bytes n coded values stand for. */
  function PlainLen(n: nat): nat {
    n / 4 * 3 + if n % 4 == 0 then 0 else n % 4 - 1
  }

  /** What a list of coded values stands for; one left over counts for nothing. */
  function Bytes(v: seq<Sextet>): (s: seq<Byte>)
    ensures |s| == PlainLen(|v|)
  {
    if |v| < 2 then []
    else if |v| == 2 then [FirstByte(v[0], v[1])]
    else if |v| == 3 then [FirstByte(v[0], v[1]), SecondByte(v[1], v[2])]
    else Triple(v[0], v[1], v[2], v[3]) + Bytes(v[4..])
  }

  function Triple(a: Sextet, b: Sextet, c: Sextet, d: Sextet): (t: seq<Byte>)
    ensures |t| == 3
  {
    [FirstByte(a, b), SecondByte(b, c), ThirdByte(c, d)]
  }

  /** The scan for the end of the coded characters. */
  method CountCoded(t: seq<Byte>) returns (nprbytes: nat)
    requires NUL in t
    ensures nprbytes == |Coded(t)|
  {
    nprbytes := 0;
    ghost var z :| 0 <= z < |t| && t[z] == NUL;
    while Pr2Six(t[nprbytes]) <= 63
      invariant nprbytes <= z && nprbytes <= |Coded(t)|
      decreases z - nprbytes
    {
      nprbytes := nprbytes + 1;
    }
    assert forall i | 0 <= i < |Coded(t)| :: Coded(t)[i] == Pr2Six(t[i]) <= 63;
  }

  lemma BytesGroup(v: seq<Sextet>)
    requires 3 < |v|
    ensures Bytes(v) == Triple(v[0], v[1], v[2], v[3]) + Bytes(v[4..])
  {
  }

  /** The loop over groups of four characters; the last four are left for afterwards. */
  method DecodeGroups(plain: array<Byte>, t: seq<Byte>, count: nat) returns (bufin: nat, bufout: nat, nprbytes: nat)
    requires count == |Coded(t)| && |Bytes(Coded(t))| < plain.Length
    modifies plain
    ensures nprbytes <= 4 && bufin + nprbytes == count && bufin % 4 == 0
    ensures bufout + |Bytes(Coded(t)[bufin..])| == |Bytes(Coded(t))|
    ensures Bytes(Coded(t)) == plain[..bufout] + Bytes(Coded(t)[bufin..])
    ensures plain[bufout..] == old(plain[bufout..])
  {
    hide Pr2Six, FirstByte, SecondByte, ThirdByte, Bytes, Coded, Triple, PlainLen;
    ghost var v, tail := Coded(t), plain[..];
    assert v[0..] == v;
    bufin, bufout, nprbytes := 0, 0, count;
    while nprbytes > 4
      invariant nprbytes + bufin == count && bufin % 4 == 0
      invariant bufout + |Bytes(v[bufin..])| == |Bytes(v)|
      invariant Bytes(v) == plain[..bufout] + Bytes(v[bufin..])
      invariant plain[bufout..] == tail[bufout..]
    {
      BytesGroup(v[bufin..]);
      assert v[bufin..][4..] == v[bufin + 4..];
      ghost var done := plain[..bufout];
      bufout := WriteTriple(plain, bufout, Pr2Six(t[bufin]), Pr2Six(t[bufin + 1]), Pr2Six(t[bufin + 2]), Pr2Six(t[bufin + 3]));
      JoinText(done, Triple(v[bufin], v[bufin + 1], v[bufin + 2], v[bufin + 3]), Bytes(v[bufin + 4..]));
      assert tail[bufout - 3..][3..] == tail[bufout..];
      bufin, nprbytes := bufin + 4, nprbytes - 4;
    }
  }

  /** The length computed from the count of characters. */
  lemma DecodedLength(bufin: nat, nprbytes: nat)
    requires bufin % 4 == 0 && nprbytes <= 4
    ensures var count := bufin + nprbytes;
            (count + 3) / 4 * 3 - (4 - nprbytes) % 4 == PlainLen(count)
  {
    var q, count := bufin / 4, bufin + nprbytes;
    assert bufin == 4 * q;
    if nprbytes == 4 {
      assert count == 4 * (q + 1) + 0;
    } else {
      assert count == 4 * q + nprbytes;
    }
  }

  /** The three bytes of one group. */
  method WriteTriple(plain: array<Byte>, at: nat, a: Sextet, b: Sextet, c: Sextet, d: Sextet) returns (bufout: nat)
    requires at + 3 <= plain.Length
    modifies plain
    ensures bufout == at + 3 && plain[..bufout] == old(plain[..at]) + Triple(a, b, c, d)
    ensures plain[bufout..] == old(plain[bufout..])
  {
    hide FirstByte, SecondByte, ThirdByte;
    bufout := at;
    plain[bufout] := FirstByte(a, b);
    plain[bufout + 1] := SecondByte(b, c);
    plain[bufout + 2] := ThirdByte(c, d);
    bufout := bufout + 3;
  }

  /** Base64decode on a terminated text: it writes the bytes with a terminator behind them
      and returns their number. */
  method Decode(plain: array<Byte>, t: seq<Byte>) returns (n: nat)
    requires NUL in t && |Bytes(Coded(t))| < plain.Length
    modifies plain
    ensures n == |Bytes(Coded(t))|
    ensures plain[..n] == Bytes(Coded(t)) && plain[n] == NUL
    ensures plain[n + 1..] == old(plain[n + 1..])
  {
    hide Coded, Bytes;
    ghost var before := plain[..];
    var count := CountCoded(t);
    var nbytesdecoded := (count + 3) / 4 * 3;
    var bufin, bufout, nprbytes := DecodeGroups(plain, t, count);
    bufout := DecodeRest(plain, bufout, t, bufin, nprbytes);
    ghost var tail := plain[bufout..];
    assert tail == before[bufout..];
    plain[bufout] := NUL;
    assert plain[bufout + 1..] == tail[1..];
    DecodedLength(bufin, nprbytes);
    n := nbytesdecoded - (4 - nprbytes) % 4;
  }

  /** The three conditional writes behind the loop: at most four characters are left. */
  method DecodeRest(plain: array<Byte>, at: nat, t: seq<Byte>, bufin: nat, nprbytes: nat) returns (bufout: nat)
    requires nprbytes <= 4 && bufin + nprbytes == |Coded(t)|
    requires at + |Bytes(Coded(t)[bufin..])| <= plain.Length
    modifies plain
    ensures bufout == at + |Bytes(Coded(t)[bufin..])|
    ensures plain[..bufout] == old(plain[..at]) + Bytes(Coded(t)[bufin..])
    ensures plain[bufout..] == old(plain[bufout..])
  {
    hide Pr2Six, FirstByte, SecondByte, ThirdByte, Coded;
    ghost var done, rest := plain[..at], Coded(t)[bufin..];
    assert forall k | 0 <= k < |rest| :: rest[k] == Pr2Six(t[bufin + k]);
    if nprbytes == 4 {
      BytesGroup(rest);
      assert rest[4..] == [];
    }
    bufout := at;
    if nprbytes > 1 {
      plain[bufout] := FirstByte(Pr2Six(t[bufin]), Pr2Six(t[bufin + 1]));
      bufout := bufout + 1;
    }
    if nprbytes > 2 {
      plain[bufout] := SecondByte(Pr2Six(t[bufin + 1]), Pr2Six(t[bufin + 2]));
      bufout := bufout + 1;
    }
    if nprbytes > 3 {
      plain[bufout] := ThirdByte(Pr2Six(t[bufin + 2]), Pr2Six(t[bufin + 3]));
      bufout := bufout + 1;
    }
    assert plain[..bufout] == done + Bytes(rest);
  }

  // ----- Round trip --------------------------------------------------------

  /** The coded values of an encoding, without padding. */
  function Sextets(s: seq<Byte>): seq<Sextet> {
    if s == [] then []
    else if |s| == 1 then [First(s[0]), Second(s[0], 0)]
    else if |s| == 2 then [First(s[0]), Second(s[0], s[1]), Third(s[1], 0)]
    else [First(s[0]), Second(s[0], s[1]), Third(s[1], s[2]), Fourth(s[2])] + Sextets(s[3..])
  }

  lemma BytesOfGroup(a: Byte, b: Byte, c: Byte)
    ensures FirstByte(First(a), Second(a, b)) == a
    ensures SecondByte(Second(a, b), Third(b, c)) == b
    ensures ThirdByte(Third(b, c), Fourth(c)) == c
  {
  }

  lemma {:induction false} BytesOfSextets(s: seq<Byte>)
    ensures Bytes(Sextets(s)) == s
    decreases |s|
  {
    hide First, Second, Third, Fourth, FirstByte, SecondByte, ThirdByte;
    if |s| == 1 {
      BytesOfGroup(s[0], 0, 0);
    } else if |s| == 2 {
      BytesOfGroup(s[0], s[1], 0);
    } else if |s| > 2 {
      BytesOfGroup(s[0], s[1], s[2]);
      BytesOfSextets(s[3..]);
      BytesGroup(Sextets(s));
      assert Sextets(s)[4..] == Sextets(s[3..]);
      assert s == [s[0], s[1], s[2]] + s[3..];
    }
  }

  lemma CodedFirst(v: Sextet, t: seq<Byte>)
    ensures Coded([Basis(v)] + t) == [v] + Coded(t)
  {
    TablesAreInverse(v);
    assert ([Basis(v)] + t)[1..] == t;
  }

  /** The text of some values in front of another text. */
  function Text(v: seq<Sextet>): seq<Byte> {
    if v == [] then [] else [Basis(v[0])] + Text(v[1..])
  }

  lemma {:induction false} CodedText(v: seq<Sextet>, more: seq<Byte>)
    ensures Coded(Text(v) + more) == v + Coded(more)
    decreases |v|
  {
    hide Coded, Basis;
    if v == [] {
      assert Text(v) + more == more;
    } else {
      assert Text(v) + more == [Basis(v[0])] + (Text(v[1..]) + more);
      CodedFirst(v[0], Text(v[1..]) + more);
      CodedText(v[1..], more);
    }
  }

  lemma {:induction false} TextAppend(v: seq<Sextet>, w: seq<Sextet>)
    ensures Text(v + w) == Text(v) + Text(w)
    decreases |v|
  {
    hide Basis;
    if v == [] {
      assert v + w == w;
    } else {
      assert (v + w)[1..] == v[1..] + w;
      TextAppend(v[1..], w);
    }
  }

  function Padding(n: nat): seq<Byte> {
    if n % 3 == 1 then [PAD, PAD] else if n % 3 == 2 then [PAD] else []
  }

  lemma SextetsGroup(s: seq<Byte>)
    requires 2 < |s|
    ensures Sextets(s) == [First(s[0]), Second(s[0], s[1]), Third(s[1], s[2]), Fourth(s[2])] + Sextets(s[3..])
  {
  }

  lemma SextetsOfFew(s: seq<Byte>)
    requires |s| <= 2
    ensures Sextets(s) == if s == [] then []
                          else if |s| == 1 then [First(s[0]), Second(s[0], 0)]
                          else [First(s[0]), Second(s[0], s[1]), Third(s[1], 0)]
  {
  }

  lemma PadNothing()
    ensures Text([]) + Padding(0) == []
  {
  }

  lemma PadTwo(text: seq<Byte>, v: seq<Sextet>)
    requires |v| == 2 && text == [Basis(v[0]), Basis(v[1]), PAD, PAD]
    ensures text == Text(v) + Padding(1)
  {
    hide Basis, Text;
    TextOfFew(v);
  }

  lemma PadOne(text: seq<Byte>, v: seq<Sextet>)
    requires |v| == 3 && text == [Basis(v[0]), Basis(v[1]), Basis(v[2]), PAD]
    ensures text == Text(v) + Padding(2)
  {
    hide Basis, Text;
    TextOfFew(v);
  }

  /** The text is the characters of the coded values and the padding. */
  lemma {:induction false} EncodedIsText(s: seq<Byte>)
    ensures Encoded(s) == Text(Sextets(s)) + Padding(|s|)
    decreases |s|
  {
    hide Basis, First, Second, Third, Fourth, Encoded, Sextets, Text, Padding, Quad, TextLen;
    if |s| <= 2 {
      EncodedRest(s);
      SextetsOfFew(s);
      if s == [] {
        PadNothing();
      } else if |s| == 1 {
        PadTwo(Encoded(s), Sextets(s));
      } else {
        PadOne(Encoded(s), Sextets(s));
      }
    } else {
      EncodedGroup(s);
      SextetsGroup(s);
      EncodedIsText(s[3..]);
      var four := [First(s[0]), Second(s[0], s[1]), Third(s[1], s[2]), Fourth(s[2])];
      TextOfQuad(s[0], s[1], s[2]);
      TextAppend(four, Sextets(s[3..]));
      PaddingStep(|s|);
      JoinText(Text(four), Text(Sextets(s[3..])), Padding(|s|));
    }
  }

  lemma PaddingStep(n: nat)
    requires 3 <= n
    ensures Padding(n) == Padding(n - 3)
  {
  }

  lemma TextOfQuad(a: Byte, b: Byte, c: Byte)
    ensures Text([First(a), Second(a, b), Third(b, c), Fourth(c)]) == Quad(a, b, c)
  {
    hide Basis, First, Second, Third, Fourth;
    TextOfFew([First(a), Second(a, b), Third(b, c), Fourth(c)]);
  }

  lemma TextOfFew(v: seq<Sextet>)
    requires |v| <= 4
    ensures |Text(v)| == |v| && forall i | 0 <= i < |v| :: Text(v)[i] == Basis(v[i])
  {
    hide Basis;
    if v != [] {
      TextOfFew(v[1..]);
    }
  }

  /** Whatever stands behind the text, as long as it does not go on with coded characters. */
  lemma CodedOfEncoded(s: seq<Byte>, more: seq<Byte>)
    requires Coded(more) == []
    ensures Coded(Encoded(s) + more) == Sextets(s)
  {
    hide Encoded, Sextets, Text;
    EncodedIsText(s);
    var tail := Padding(|s|) + more;
    assert Encoded(s) + more == Text(Sextets(s)) + tail;
    assert Padding(|s|) != [] ==> tail[0] == PAD && Coded(tail) == [];
    assert Padding(|s|) == [] ==> tail == more;
    CodedText(Sextets(s), tail);
  }

  /** Decoding what was encoded gives the bytes back. */
  lemma RoundTrip(s: seq<Byte>)
    ensures Bytes(Coded(Encoded(s) + [NUL])) == s
  {
    CodedOfEncoded(s, [NUL]);
    BytesOfSextets(s);
  }

  /** The two procedures one after the other, on any bytes. */
  method EncodeThenDecode(s: seq<Byte>) returns (plain: array<Byte>, n: nat)
    ensures n == |s| && n <= plain.Length && plain[..n] == s
  {
    var text := new Byte[EncodeLen(|s|)];
    var length := Encode(text, s);
    RoundTrip(s);
    plain := new Byte[|s| + 1];
    n := Decode(plain, text[..length]);
  }

  // ----- The code itself ---------------------------------------------------

  const CAPITALS: string := "ABCDEFGHIJKLMNOPQRSTUVWXYZ"
  const LETTERS: string := "abcdefghijklmnopqrstuvwxyz"
  const DIGITS: string := "0123456789"

  /** The alphabet of RFC 4648. */
  const ALPHABET: string := CAPITALS + LETTERS + DIGITS + "+/"

  lemma CapitalAt(i: nat)
    requires i < 26
    ensures CAPITALS[i] as int == 65 + i
  {
  }

  lemma LetterAt(i: nat)
    requires i < 26
    ensures LETTERS[i] as int == 97 + i
  {
  }

  lemma DigitAt(i: nat)
    requires i < 10
    ensures DIGITS[i] as int == 48 + i
  {
  }

  lemma AlphabetLength()
    ensures |CAPITALS| == |LETTERS| == 26 && |DIGITS| == 10 && |ALPHABET| == 64
  {
  }

  /** The character of a value is the one at its place in the alphabet. */
  lemma BasisIsAlphabet(v: Sextet)
    ensures |ALPHABET| == 64 && Basis(v) as char == ALPHABET[v]
  {
    AlphabetLength();
    if v < 26 {
      CapitalAt(v);
    } else if v < 52 {
      LetterAt(v - 26);
    } else if v < 62 {
      DigitAt(v - 52);
    }
  }

  /** A character is coded exactly when it is in the alphabet. */
  lemma CodedIffInAlphabet(c: Byte)
    ensures Pr2Six(c) != NOT_CODED <==> c as char in ALPHABET
  {
    hide Basis, Pr2Six;
    if Pr2Six(c) != NOT_CODED {
      CodedIsBasis(c);
      BasisIsAlphabet(Pr2Six(c));
    } else {
      forall v | 0 <= v < 64 ensures ALPHABET[v] != c as char {
        BasisIsAlphabet(v);
        TablesAreInverse(v);
      }
    }
  }

  lemma CodedIsBasis(c: Byte)
    requires Pr2Six(c) != NOT_CODED
    ensures Pr2Six(c) < 64 && Basis(Pr2Six(c)) == c
  {
  }

  /** Three bytes and their four values are the same number, high digits first. */
  lemma QuadIsNumber(a: Byte, b: Byte, c: Byte)
    ensures (a * 256 + b) * 256 + c == ((First(a) * 64 + Second(a, b)) * 64 + Third(b, c)) * 64 + Fourth(c)
  {
    var a1, a0, b1, b0, c1, c0 := a / 4, a % 4, b / 16, b % 16, c / 64, c % 64;
    assert First(a) == a1 && Second(a, b) == a0 * 16 + b1 && Third(b, c) == b0 * 4 + c1 && Fourth(c) == c0;
    SameNumber(a1, a0, b1, b0, c1, c0);
  }

  lemma SameNumber(a1: int, a0: int, b1: int, b0: int, c1: int, c0: int)
    ensures ((4 * a1 + a0) * 256 + (16 * b1 + b0)) * 256 + (64 * c1 + c0) ==
            ((a1 * 64 + (a0 * 16 + b1)) * 64 + (b0 * 4 + c1)) * 64 + c0
  {
  }

  /** What is encoded for one, two and three bytes: the values of the number they make,
      filled up with zero bits, and padding for the values that carry none of their bits. */
  lemma EncodedByLength(a: Byte, b: Byte, c: Byte, more: seq<Byte>)
    ensures Encoded([a]) == [Basis(First(a)), Basis(Second(a, 0)), '=' as int, '=' as int]
    ensures Encoded([a, b]) == [Basis(First(a)), Basis(Second(a, b)), Basis(Third(b, 0)), '=' as int]
    ensures Encoded([a, b, c] + more) ==
            [Basis(First(a)), Basis(Second(a, b)), Basis(Third(b, c)), Basis(Fourth(c))] + Encoded(more)
  {
    hide Basis, First, Second, Third, Fourth, Encoded;
    EncodedRest([a]);
    EncodedRest([a, b]);
    EncodedGroup([a, b, c] + more);
    assert ([a, b, c] + more)[3..] == more;
  }
}
