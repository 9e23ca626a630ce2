/**
 * Bytes, ASCII text and well-formed UTF-8, as used by the cursor codec:
 * the decoded cursor is read with `.decode('utf-8')` and the re-encoded
 * cursor is written with `.encode('ASCII')`.
 */
module Ascii {

  /** A byte: an integer in 0..255. */
  newtype byte = x: int | 0 <= x < 256

  const COMMA: byte := 44

  predicate IsAscii(b: seq<byte>) {
    forall i | 0 <= i < |b| :: b[i] < 128
  }

  predicate IsAsciiText(s: string) {
    forall i | 0 <= i < |s| :: s[i] as int < 128
  }

  lemma AsciiConcat(a: seq<byte>, b: seq<byte>)
    requires IsAscii(a) && IsAscii(b)
    ensures IsAscii(a + b)
  {
    assert forall i | |a| <= i < |a + b| :: (a + b)[i] == b[i - |a|];
  }

  /** The byte of each character of an ASCII string. */
  function ToBytes(s: string): (b: seq<byte>)
    requires IsAsciiText(s)
    ensures |b| == |s|
    ensures forall i | 0 <= i < |s| :: b[i] as int == s[i] as int
    ensures IsAscii(b)
  {
    seq(|s|, i requires 0 <= i < |s| => s[i] as int as byte)
  }

  /** The character of each byte; ASCII bytes become ASCII text. */
  function FromBytes(b: seq<byte>): (s: string)
    ensures |s| == |b|
    ensures forall i | 0 <= i < |b| :: s[i] as int == b[i] as int
    ensures IsAscii(b) ==> IsAsciiText(s)
  {
    seq(|b|, i requires 0 <= i < |b| => b[i] as int as char)
  }

  /** FromBytes and ToBytes are inverse on ASCII. */
  lemma ToFromBytes(b: seq<byte>)
    requires IsAscii(b)
    ensures ToBytes(FromBytes(b)) == b
  {
  }

  predicate IsContinuation(b: byte) {
    0x80 <= b <= 0xBF
  }

  /**
   * Strict UTF-8 (RFC 3629, table of section 4): no overlong forms, no
   * surrogates, nothing above U+10FFFF -- what Python's 'utf-8' codec
   * accepts without raising UnicodeDecodeError.
   */
  predicate WellFormedUtf8(b: seq<byte>)
    decreases |b|
  {
    if b == [] then true
    else if b[0] < 0x80 then WellFormedUtf8(b[1..])
    else if 0xC2 <= b[0] <= 0xDF then
      |b| >= 2 && IsContinuation(b[1]) && WellFormedUtf8(b[2..])
    else if b[0] == 0xE0 then
      |b| >= 3 && 0xA0 <= b[1] <= 0xBF && IsContinuation(b[2]) && WellFormedUtf8(b[3..])
    else if 0xE1 <= b[0] <= 0xEC || 0xEE <= b[0] <= 0xEF then
      |b| >= 3 && IsContinuation(b[1]) && IsContinuation(b[2]) && WellFormedUtf8(b[3..])
    else if b[0] == 0xED then
      |b| >= 3 && 0x80 <= b[1] <= 0x9F && IsContinuation(b[2]) && WellFormedUtf8(b[3..])
    else if b[0] == 0xF0 then
      |b| >= 4 && 0x90 <= b[1] <= 0xBF && IsContinuation(b[2]) && IsContinuation(b[3])
      && WellFormedUtf8(b[4..])
    else if 0xF1 <= b[0] <= 0xF3 then
      |b| >= 4 && IsContinuation(b[1]) && IsContinuation(b[2]) && IsContinuation(b[3])
      && WellFormedUtf8(b[4..])
    else if b[0] == 0xF4 then
      |b| >= 4 && 0x80 <= b[1] <= 0x8F && IsContinuation(b[2]) && IsContinuation(b[3])
      && WellFormedUtf8(b[4..])
    else false
  }

  /** ASCII text always decodes as UTF-8. */
  lemma {:induction false} AsciiIsUtf8(b: seq<byte>)
    requires IsAscii(b)
    ensures WellFormedUtf8(b)
    decreases |b|
  {
    if b != [] {
      AsciiIsUtf8(b[1..]);
    }
  }
}
