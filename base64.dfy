/**
 * The base64 codec of section 4 of RFC 4648 (standard alphabet, '='
 * padding), as Python's base64.b64encode and base64.b64decode apply it to
 * the pagination cursor. Both directions work on ASCII bytes: Python turns
 * the cursor text into bytes before decoding and back into text after
 * encoding. Decoding accepts only well-formed, padded input.
 */
module Base64 {
  import opened Ascii
  import opened Wrappers

  const PAD: byte := 61  // '='

  predicate IsAlphabet(c: byte) {
    65 <= c <= 90 || 97 <= c <= 122 || 48 <= c <= 57 || c == 43 || c == 47
  }

  /** The 6-bit value a character of the alphabet stands for. */
  function ValueOf(c: byte): (v: int)
    requires IsAlphabet(c)
    ensures 0 <= v < 64
  {
    if 65 <= c <= 90 then c as int - 65         // 'A'..'Z' are 0..25
    else if 97 <= c <= 122 then c as int - 71   // 'a'..'z' are 26..51
    else if 48 <= c <= 57 then c as int + 4     // '0'..'9' are 52..61
    else if c == 43 then 62                     // '+'
    else 63                                     // '/'
  }

  /** The character of the alphabet for a 6-bit value; ValueOf undoes it. */
  function Sextet(v: int): (c: byte)
    requires 0 <= v < 64
    ensures IsAlphabet(c) && ValueOf(c) == v
  {
    if v < 26 then (v + 65) as byte
    else if v < 52 then (v + 71) as byte
    else if v < 62 then (v - 4) as byte
    else if v == 62 then 43
    else 47
  }

  /** Position i holds a padding '=': the last character, or the one before a final '='. */
  predicate IsPadding(s: seq<byte>, i: int) {
    0 <= i < |s| && s[i] == PAD && (i == |s| - 1 || (i == |s| - 2 && s[|s| - 1] == PAD))
  }

  /** Well-formed base64: whole quads of alphabet characters, '=' only as final padding. */
  predicate WellFormed(s: seq<byte>) {
    |s| % 4 == 0 && forall i | 0 <= i < |s| :: IsAlphabet(s[i]) || IsPadding(s, i)
  }

  function PadCount(s: seq<byte>): nat {
    if |s| >= 2 && s[|s| - 1] == PAD && s[|s| - 2] == PAD then 2
    else if |s| >= 1 && s[|s| - 1] == PAD then 1
    else 0
  }

  // The four 6-bit groups of three bytes b0 b1 b2, most significant first.

  function First6(b0: byte): (v: int) ensures 0 <= v < 64 { b0 as int / 4 }

  function Second6(b0: byte, b1: byte): (v: int) ensures 0 <= v < 64 { (b0 as int % 4) * 16 + b1 as int / 16 }

  function Third6(b1: byte, b2: byte): (v: int) ensures 0 <= v < 64 { (b1 as int % 16) * 4 + b2 as int / 64 }

  function Fourth6(b2: byte): (v: int) ensures 0 <= v < 64 { b2 as int % 64 }

  // The three bytes that four 6-bit values v0 v1 v2 v3 spell.

  function Byte0(v0: int, v1: int): byte
    requires 0 <= v0 < 64 && 0 <= v1 < 64
  {
    (v0 * 4 + v1 / 16) as byte
  }

  function Byte1(v1: int, v2: int): byte
    requires 0 <= v1 < 64 && 0 <= v2 < 64
  {
    ((v1 % 16) * 16 + v2 / 4) as byte
  }

  function Byte2(v2: int, v3: int): byte
    requires 0 <= v2 < 64 && 0 <= v3 < 64
  {
    ((v2 % 4) * 64 + v3) as byte
  }

  /** Base64 text is ASCII. */
  lemma WellFormedIsAscii(s: seq<byte>)
    requires WellFormed(s)
    ensures IsAscii(s)
  {
    forall i | 0 <= i < |s|
      ensures s[i] < 128
    {
      assert IsAlphabet(s[i]) || IsPadding(s, i);
    }
  }

  /** The four characters for three bytes. */
  function EncodeGroup(b0: byte, b1: byte, b2: byte): (q: seq<byte>)
    ensures |q| == 4 && forall i | 0 <= i < 4 :: IsAlphabet(q[i])
  {
    [Sextet(First6(b0)), Sextet(Second6(b0, b1)), Sextet(Third6(b1, b2)), Sextet(Fourth6(b2))]
  }

  function Encode(b: seq<byte>): (s: seq<byte>)
    ensures |s| == (|b| + 2) / 3 * 4
    ensures WellFormed(s)
    ensures PadCount(s) == (3 - |b| % 3) % 3
    decreases |b|
  {
    if |b| == 0 then []
    else if |b| == 1 then
      [Sextet(First6(b[0])), Sextet(Second6(b[0], 0)), PAD, PAD]
    else if |b| == 2 then
      [Sextet(First6(b[0])), Sextet(Second6(b[0], b[1])), Sextet(Third6(b[1], 0)), PAD]
    else
      var q := EncodeGroup(b[0], b[1], b[2]);
      var rest := Encode(b[3..]);
      WellFormedPrepend(q, rest);
      LengthStep(|b|);
      q + rest
  }

  /** Three more bytes take one more quad and leave the padding as it was. */
  lemma LengthStep(n: int)
    requires n >= 3
    ensures (n + 2) / 3 * 4 == 4 + (n - 1) / 3 * 4
    ensures (3 - n % 3) % 3 == (3 - (n - 3) % 3) % 3
  {
    var k := (n - 1) / 3;
    assert n - 1 == 3 * k + (n - 1) % 3;
    assert n + 2 == 3 * (k + 1) + (n - 1) % 3;
  }

  /** A full quad of alphabet characters in front of well-formed text keeps it well-formed. */
  lemma WellFormedPrepend(q: seq<byte>, t: seq<byte>)
    requires |q| == 4 && forall i | 0 <= i < 4 :: IsAlphabet(q[i])
    requires WellFormed(t)
    ensures WellFormed(q + t)
    ensures PadCount(q + t) == PadCount(t)
  {
    var s := q + t;
    assert forall i | 4 <= i < |s| :: s[i] == t[i - 4] && IsPadding(s, i) == IsPadding(t, i - 4);
    assert forall i | 0 <= i < 4 :: s[i] == q[i];
  }

  /** The three bytes of a full quad. */
  function DecodeGroup(a: byte, b: byte, c: byte, d: byte): (r: seq<byte>)
    requires IsAlphabet(a) && IsAlphabet(b) && IsAlphabet(c) && IsAlphabet(d)
    ensures |r| == 3
  {
    [Byte0(ValueOf(a), ValueOf(b)), Byte1(ValueOf(b), ValueOf(c)), Byte2(ValueOf(c), ValueOf(d))]
  }

  /** The bytes of the final quad; c and d may be padding. */
  function DecodeLastQuad(a: byte, b: byte, c: byte, d: byte): (r: Option<seq<byte>>)
    ensures r.Some? <==> IsAlphabet(a) && IsAlphabet(b)
                         && ((c == PAD && d == PAD) || (IsAlphabet(c) && (d == PAD || IsAlphabet(d))))
    ensures r.Some? ==> |r.value| == (if c == PAD then 1 else if d == PAD then 2 else 3)
  {
    if !IsAlphabet(a) || !IsAlphabet(b) then None
    else if c == PAD && d == PAD then
      Some([Byte0(ValueOf(a), ValueOf(b))])
    else if IsAlphabet(c) && d == PAD then
      Some([Byte0(ValueOf(a), ValueOf(b)), Byte1(ValueOf(b), ValueOf(c))])
    else if IsAlphabet(c) && IsAlphabet(d) then
      Some(DecodeGroup(a, b, c, d))
    else None
  }

  /**
   * Decoding; None stands for Python's binascii.Error. Bits left over in the
   * last character before padding are dropped, as Python does.
   */
  function Decode(s: seq<byte>): (r: Option<seq<byte>>)
    ensures r.Some? <==> WellFormed(s)
    ensures r.Some? ==> |r.value| == |s| / 4 * 3 - PadCount(s)
    decreases |s|
  {
    if |s| == 0 then Some([])
    else if |s| < 4 then None
    else if |s| == 4 then DecodeLastQuad(s[0], s[1], s[2], s[3])
    else
      WellFormedSplit(s);
      if IsAlphabet(s[0]) && IsAlphabet(s[1]) && IsAlphabet(s[2]) && IsAlphabet(s[3]) then
        match Decode(s[4..])
        case None => None
        case Some(rest) => Some(DecodeGroup(s[0], s[1], s[2], s[3]) + rest)
      else None
  }

  /** Beyond the first quad, well-formed text is a full quad followed by well-formed text. */
  lemma WellFormedSplit(s: seq<byte>)
    requires |s| > 4
    ensures WellFormed(s) <==>
      IsAlphabet(s[0]) && IsAlphabet(s[1]) && IsAlphabet(s[2]) && IsAlphabet(s[3]) && WellFormed(s[4..])
    ensures WellFormed(s) ==> PadCount(s) == PadCount(s[4..])
  {
    var t := s[4..];
    assert forall i | 4 <= i < |s| :: s[i] == t[i - 4] && IsPadding(s, i) == IsPadding(t, i - 4);
    if WellFormed(s) {
      assert forall i | 0 <= i < 4 :: !IsPadding(s, i);
      assert s[|s| - 1] == t[|t| - 1] && s[|s| - 2] == t[|t| - 2];
    }
  }

  /** Division with remainder by the group widths. */
  lemma DivMod(q: int, r: int, d: int)
    requires d == 4 || d == 16 || d == 64
    requires 0 <= r < d
    ensures (q * d + r) / d == q && (q * d + r) % d == r
  {
    if d == 4 {
      assert q * d + r == 4 * q + r;
    } else if d == 16 {
      assert q * d + r == 16 * q + r;
    } else {
      assert q * d + r == 64 * q + r;
    }
  }

  /** Reading the four groups of three bytes back gives the bytes. */
  lemma GroupBits(b0: byte, b1: byte, b2: byte)
    ensures Byte0(First6(b0), Second6(b0, b1)) == b0
    ensures Byte1(Second6(b0, b1), Third6(b1, b2)) == b1
    ensures Byte2(Third6(b1, b2), Fourth6(b2)) == b2
  {
    DivMod(b0 as int % 4, b1 as int / 16, 16);
    DivMod(b1 as int % 16, b2 as int / 64, 4);
  }

  /** Grouping the bytes of four 6-bit values again gives the values. */
  lemma SextetBits(v0: int, v1: int, v2: int, v3: int)
    requires 0 <= v0 < 64 && 0 <= v1 < 64 && 0 <= v2 < 64 && 0 <= v3 < 64
    ensures First6(Byte0(v0, v1)) == v0
    ensures Second6(Byte0(v0, v1), Byte1(v1, v2)) == v1
    ensures Third6(Byte1(v1, v2), Byte2(v2, v3)) == v2
    ensures Fourth6(Byte2(v2, v3)) == v3
  {
    DivMod(v0, v1 / 16, 4);
    DivMod(v1 % 16, v2 / 4, 16);
    DivMod(v2 % 4, v3, 64);
  }

  /** Sextet and ValueOf are inverse on the alphabet. */
  lemma SextetOfValue(c: byte)
    requires IsAlphabet(c)
    ensures Sextet(ValueOf(c)) == c
  {
  }

  /** Three bytes survive their quad. */
  lemma GroupRoundTrip(b0: byte, b1: byte, b2: byte)
    ensures var q := EncodeGroup(b0, b1, b2); DecodeGroup(q[0], q[1], q[2], q[3]) == [b0, b1, b2]
  {
    GroupBits(b0, b1, b2);
  }

  /** One byte survives its padded quad. */
  lemma OneByteRoundTrip(b0: byte)
    ensures DecodeLastQuad(Sextet(First6(b0)), Sextet(Second6(b0, 0)), PAD, PAD) == Some([b0])
  {
    GroupBits(b0, 0, 0);
  }

  /** Two bytes survive their padded quad. */
  lemma TwoBytesRoundTrip(b0: byte, b1: byte)
    ensures DecodeLastQuad(Sextet(First6(b0)), Sextet(Second6(b0, b1)), Sextet(Third6(b1, 0)), PAD)
      == Some([b0, b1])
  {
    GroupBits(b0, b1, 0);
  }

  /** Round trip: decoding what Encode produced gives back the bytes. */
  lemma {:induction false} DecodeEncode(b: seq<byte>)
    ensures Decode(Encode(b)) == Some(b)
    decreases |b|
  {
    if |b| == 1 {
      assert b == [b[0]];
      OneByteRoundTrip(b[0]);
    } else if |b| == 2 {
      assert b == [b[0], b[1]];
      TwoBytesRoundTrip(b[0], b[1]);
    } else if |b| == 3 {
      assert b == [b[0], b[1], b[2]];
      var q := EncodeGroup(b[0], b[1], b[2]);
      assert Encode(b) == q by {
        assert b[3..] == [];
      }
      GroupRoundTrip(b[0], b[1], b[2]);
    } else if |b| > 3 {
      assert b == [b[0], b[1], b[2]] + b[3..];
      var q := EncodeGroup(b[0], b[1], b[2]);
      DecodeEncode(b[3..]);
      DecodeQuadStep(q, b[3..]);
      GroupRoundTrip(b[0], b[1], b[2]);
    }
  }

  /** Decoding a full quad in front of more text. */
  lemma DecodeQuadStep(q: seq<byte>, rest: seq<byte>)
    requires |q| == 4 && forall i | 0 <= i < 4 :: IsAlphabet(q[i])
    requires Decode(Encode(rest)) == Some(rest) && rest != []
    ensures Decode(q + Encode(rest)) == Some(DecodeGroup(q[0], q[1], q[2], q[3]) + rest)
  {
    var s := q + Encode(rest);
    assert s[4..] == Encode(rest);
    assert s[0] == q[0] && s[1] == q[1] && s[2] == q[2] && s[3] == q[3];
  }

  /**
   * Canonical text: well-formed, and the bits the last character before
   * padding carries beyond the final byte are zero.
   */
  predicate Canonical(s: seq<byte>) {
    WellFormed(s)
    && (PadCount(s) == 2 ==> ValueOf(s[|s| - 3]) % 16 == 0)
    && (PadCount(s) == 1 ==> ValueOf(s[|s| - 2]) % 4 == 0)
  }

  /** The other round trip: canonical text is exactly the encoding of what it decodes to. */
  lemma {:induction false} EncodeDecode(s: seq<byte>)
    requires Canonical(s)
    ensures Decode(s).Some? && Encode(Decode(s).value) == s
    decreases |s|
  {
    if |s| == 4 {
      LastQuadRoundTrip(s);
    } else if |s| > 4 {
      WellFormedSplit(s);
      var t := s[4..];
      CanonicalTail(s);
      EncodeDecode(t);
      FullQuadRoundTrip(s, Decode(t).value);
    }
  }

  lemma LastQuadRoundTrip(s: seq<byte>)
    requires |s| == 4 && Canonical(s)
    ensures Decode(s).Some? && Encode(Decode(s).value) == s
  {
    assert s == [s[0], s[1], s[2], s[3]];
    if s[2] == PAD {
      PadTwoRoundTrip(s[0], s[1]);
    } else if s[3] == PAD {
      PadOneRoundTrip(s[0], s[1], s[2]);
    } else {
      var g := DecodeGroup(s[0], s[1], s[2], s[3]);
      assert Decode(s) == Some(g);
      EncodeAfterGroup(g, []);
      assert g + [] == g;
      FullQuadSextets(s[0], s[1], s[2], s[3]);
    }
  }

  /** The 6-bit values of a quad with two padding characters, regrouped. */
  lemma PadTwoBits(v0: int, v1: int)
    requires 0 <= v0 < 64 && 0 <= v1 < 64 && v1 % 16 == 0
    ensures First6(Byte0(v0, v1)) == v0 && Second6(Byte0(v0, v1), 0) == v1
  {
    SextetBits(v0, v1, 0, 0);
    assert Byte1(v1, 0) == 0;
  }

  /** The 6-bit values of a quad with one padding character, regrouped. */
  lemma PadOneBits(v0: int, v1: int, v2: int)
    requires 0 <= v0 < 64 && 0 <= v1 < 64 && 0 <= v2 < 64 && v2 % 4 == 0
    ensures First6(Byte0(v0, v1)) == v0 && Second6(Byte0(v0, v1), Byte1(v1, v2)) == v1
    ensures Third6(Byte1(v1, v2), 0) == v2
  {
    SextetBits(v0, v1, v2, 0);
    assert Byte2(v2, 0) == 0;
  }

  /** A quad with two padding characters and clean trailing bits. */
  lemma PadTwoRoundTrip(a: byte, b: byte)
    requires IsAlphabet(a) && IsAlphabet(b) && ValueOf(b) % 16 == 0
    ensures Decode([a, b, PAD, PAD]) == Some([Byte0(ValueOf(a), ValueOf(b))])
    ensures Encode([Byte0(ValueOf(a), ValueOf(b))]) == [a, b, PAD, PAD]
  {
    var va, vb := ValueOf(a), ValueOf(b);
    EncodeOne(Byte0(va, vb));
    PadTwoBits(va, vb);
    SextetOfValue(a);
    SextetOfValue(b);
  }

  /** A quad with one padding character and clean trailing bits. */
  lemma PadOneRoundTrip(a: byte, b: byte, c: byte)
    requires IsAlphabet(a) && IsAlphabet(b) && IsAlphabet(c) && ValueOf(c) % 4 == 0
    ensures Decode([a, b, c, PAD]) == Some([Byte0(ValueOf(a), ValueOf(b)), Byte1(ValueOf(b), ValueOf(c))])
    ensures Encode([Byte0(ValueOf(a), ValueOf(b)), Byte1(ValueOf(b), ValueOf(c))]) == [a, b, c, PAD]
  {
    DecodePadOne(a, b, c);
    var va, vb, vc := ValueOf(a), ValueOf(b), ValueOf(c);
    var x, y := Byte0(va, vb), Byte1(vb, vc);
    EncodeTwo(x, y);
    PadOneBits(va, vb, vc);
    SextetOfValue(a);
    SextetOfValue(b);
    SextetOfValue(c);
  }

  lemma DecodePadOne(a: byte, b: byte, c: byte)
    requires IsAlphabet(a) && IsAlphabet(b) && IsAlphabet(c)
    ensures Decode([a, b, c, PAD]) == Some([Byte0(ValueOf(a), ValueOf(b)), Byte1(ValueOf(b), ValueOf(c))])
  {
    var s := [a, b, c, PAD];
    assert s[0] == a && s[1] == b && s[2] == c && s[3] == PAD;
  }

  lemma EncodeOne(x: byte)
    ensures Encode([x]) == [Sextet(First6(x)), Sextet(Second6(x, 0)), PAD, PAD]
  {
  }

  lemma EncodeTwo(x: byte, y: byte)
    ensures Encode([x, y]) == [Sextet(First6(x)), Sextet(Second6(x, y)), Sextet(Third6(y, 0)), PAD]
  {
  }

  /** Encoding the three bytes of a full quad gives the quad again. */
  lemma FullQuadSextets(a: byte, b: byte, c: byte, d: byte)
    requires IsAlphabet(a) && IsAlphabet(b) && IsAlphabet(c) && IsAlphabet(d)
    ensures var g := DecodeGroup(a, b, c, d); EncodeGroup(g[0], g[1], g[2]) == [a, b, c, d]
  {
    SextetBits(ValueOf(a), ValueOf(b), ValueOf(c), ValueOf(d));
    SextetOfValue(a);
    SextetOfValue(b);
    SextetOfValue(c);
    SextetOfValue(d);
  }

  lemma CanonicalTail(s: seq<byte>)
    requires |s| > 4 && Canonical(s)
    ensures Canonical(s[4..])
  {
    WellFormedSplit(s);
    var t := s[4..];
    assert s[|s| - 3] == t[|t| - 3] && s[|s| - 2] == t[|t| - 2];
  }

  lemma FullQuadRoundTrip(s: seq<byte>, rest: seq<byte>)
    requires |s| > 4 && WellFormed(s) && Decode(s[4..]) == Some(rest) && Encode(rest) == s[4..]
    ensures Decode(s).Some? && Encode(Decode(s).value) == s
  {
    SplitFour(s);
    DecodeFirstQuad(s, rest);
    var g := DecodeGroup(s[0], s[1], s[2], s[3]);
    EncodeAfterGroup(g, rest);
    FullQuadSextets(s[0], s[1], s[2], s[3]);
  }

  lemma SplitFour(s: seq<byte>)
    requires |s| >= 4
    ensures s == [s[0], s[1], s[2], s[3]] + s[4..]
  {
  }

  lemma DecodeFirstQuad(s: seq<byte>, rest: seq<byte>)
    requires |s| > 4 && WellFormed(s) && Decode(s[4..]) == Some(rest)
    ensures IsAlphabet(s[0]) && IsAlphabet(s[1]) && IsAlphabet(s[2]) && IsAlphabet(s[3])
    ensures Decode(s) == Some(DecodeGroup(s[0], s[1], s[2], s[3]) + rest)
  {
    WellFormedSplit(s);
  }

  /** Three bytes in front of more bytes encode to their quad in front of the rest's encoding. */
  lemma EncodeAfterGroup(g: seq<byte>, rest: seq<byte>)
    requires |g| == 3
    ensures Encode(g + rest) == EncodeGroup(g[0], g[1], g[2]) + Encode(rest)
  {
    var b := g + rest;
    assert b[0] == g[0] && b[1] == g[1] && b[2] == g[2];
    assert b[3..] == rest;
  }

  /**
   * "???,0,0,0" encodes to "Pz8/LDAsMCww": three '?' bytes put the '/'
   * (value 63) of the alphabet into the text.
   */
  lemma SlashExampleEncode()
    ensures Encode([63, 63, 63, 44, 48, 44, 48, 44, 48]) == [80, 122, 56, 47, 76, 68, 65, 115, 77, 67, 119, 119]
  {
    var g1: seq<byte>, t: seq<byte> := [63, 63, 63], [44, 48, 44, 48, 44, 48];
    TailExampleEncode();
    EncodeAfterGroup(g1, t);
    QuestionMarksGroup();
    var z: seq<byte> := [63, 63, 63, 44, 48, 44, 48, 44, 48];
    assert g1 + t == z by {
      assert |g1 + t| == |z| && forall i | 0 <= i < |z| :: (g1 + t)[i] == z[i];
    }
    var e1: seq<byte>, et: seq<byte> := [80, 122, 56, 47], [76, 68, 65, 115, 77, 67, 119, 119];
    var ez: seq<byte> := [80, 122, 56, 47, 76, 68, 65, 115, 77, 67, 119, 119];
    assert e1 + et == ez by {
      assert |e1 + et| == |ez| && forall i | 0 <= i < |ez| :: (e1 + et)[i] == ez[i];
    }
  }

  /** ",0,0,0" encodes to "LDAsMCww". */
  lemma TailExampleEncode()
    ensures Encode([44, 48, 44, 48, 44, 48]) == [76, 68, 65, 115, 77, 67, 119, 119]
  {
    var g2: seq<byte>, g3: seq<byte> := [44, 48, 44], [48, 44, 48];
    EncodeAfterGroup(g2, g3);
    EncodeAfterGroup(g3, []);
    assert g3 + [] == g3;
    CommaZeroGroup();
    ZeroCommaGroup();
    assert Encode(g3) == [77, 67, 119, 119];
    var z: seq<byte> := [44, 48, 44, 48, 44, 48];
    assert g2 + g3 == z by {
      assert |g2 + g3| == |z| && forall i | 0 <= i < |z| :: (g2 + g3)[i] == z[i];
    }
    var e2: seq<byte>, e3: seq<byte> := [76, 68, 65, 115], [77, 67, 119, 119];
    var ez: seq<byte> := [76, 68, 65, 115, 77, 67, 119, 119];
    assert e2 + e3 == ez by {
      assert |e2 + e3| == |ez| && forall i | 0 <= i < |ez| :: (e2 + e3)[i] == ez[i];
    }
  }

  /** "LDAsMCww" decodes to ",0,0,0". */
  lemma SlashExampleDecode()
    ensures Decode([76, 68, 65, 115, 77, 67, 119, 119]) == Some([44, 48, 44, 48, 44, 48])
  {
    TailExampleEncode();
    DecodeEncode([44, 48, 44, 48, 44, 48]);
  }

  lemma QuestionMarksGroup()
    ensures EncodeGroup(63, 63, 63) == [80, 122, 56, 47]
  {
    assert First6(63) == 15 && Second6(63, 63) == 51 && Third6(63, 63) == 60 && Fourth6(63) == 63;
  }

  lemma CommaZeroGroup()
    ensures EncodeGroup(44, 48, 44) == [76, 68, 65, 115]
  {
    assert First6(44) == 11 && Second6(44, 48) == 3 && Third6(48, 44) == 0 && Fourth6(44) == 44;
  }

  lemma ZeroCommaGroup()
    ensures EncodeGroup(48, 44, 48) == [77, 67, 119, 119]
  {
    assert First6(48) == 12 && Second6(48, 44) == 2 && Third6(44, 48) == 48 && Fourth6(48) == 48;
  }

  /**
   * Decoding is not injective: bits left over before the padding are
   * dropped, so "QR==" reads as the same single byte 'A' as "QQ==".
   */
  lemma StrayBitsDropped()
    ensures Decode([81, 82, 61, 61]) == Decode([81, 81, 61, 61]) == Some([65])
  {
  }

  /** A byte base64 never turns into '/': ASCII other than '?' (63) and DEL (127). */
  predicate SlashFreeByte(x: byte) {
    x < 128 && x != 63 && x != 127
  }

  /**
   * '/' stands for the 6-bit value 63. In ASCII input the first three
   * groups of a quad stay below 63; the last one is the low six bits of the
   * third byte, which are all ones only for '?' and DEL.
   */
  lemma {:induction false} EncodeWithoutSlash(b: seq<byte>)
    requires forall i | 0 <= i < |b| :: SlashFreeByte(b[i])
    ensures 47 !in Encode(b)
    decreases |b|
  {
    if |b| == 1 {
      SextetNotSlash(First6(b[0]));
      SextetNotSlash(Second6(b[0], 0));
    } else if |b| == 2 {
      SextetNotSlash(First6(b[0]));
      SextetNotSlash(Second6(b[0], b[1]));
      SextetNotSlash(Third6(b[1], 0));
    } else if |b| >= 3 {
      EncodeWithoutSlash(b[3..]);
      GroupWithoutSlash(b[0], b[1], b[2]);
      assert Encode(b) == EncodeGroup(b[0], b[1], b[2]) + Encode(b[3..]);
    }
  }

  lemma GroupWithoutSlash(b0: byte, b1: byte, b2: byte)
    requires SlashFreeByte(b0) && SlashFreeByte(b1) && SlashFreeByte(b2)
    ensures 47 !in EncodeGroup(b0, b1, b2)
  {
    SextetNotSlash(First6(b0));
    SextetNotSlash(Second6(b0, b1));
    SextetNotSlash(Third6(b1, b2));
    SextetNotSlash(Fourth6(b2));
  }

  lemma SextetNotSlash(v: int)
    requires 0 <= v < 63
    ensures Sextet(v) != 47
  {
  }
}
