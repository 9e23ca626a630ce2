/**
 * Python's int() on a cursor field and str() on an int, restricted to
 * ASCII decimal text: an optional sign followed by one or more digits
 * (leading zeros allowed) is read; str() writes '-' for negatives and no
 * leading zeros.
 */
module Decimal {
  import opened Ascii
  import opened Wrappers

  const PLUS: byte := 43
  const MINUS: byte := 45
  const ZERO: byte := 48

  predicate IsDigit(b: byte) {
    48 <= b <= 57
  }

  predicate AllDigits(s: seq<byte>) {
    forall i | 0 <= i < |s| :: IsDigit(s[i])
  }

  function DigitValue(b: byte): (d: nat)
    requires IsDigit(b)
    ensures d < 10
  {
    b as int - 48
  }

  function DigitChar(d: nat): (b: byte)
    requires d < 10
    ensures IsDigit(b) && DigitValue(b) == d
  {
    (d + 48) as byte
  }

  /** The number a run of digits denotes, most significant digit first. */
  function DigitsValue(s: seq<byte>): nat
    requires AllDigits(s)
    decreases |s|
  {
    if s == [] then 0 else DigitsValue(s[..|s| - 1]) * 10 + DigitValue(s[|s| - 1])
  }

  /** The decimal digits of n without leading zeros. */
  function Digits(n: nat): (s: seq<byte>)
    ensures |s| >= 1 && AllDigits(s)
    ensures |s| > 1 ==> s[0] != ZERO
    ensures DigitsValue(s) == n
    decreases n
  {
    if n < 10 then [DigitChar(n)]
    else
      var init := Digits(n / 10);
      var s := init + [DigitChar(n % 10)];
      assert s[..|s| - 1] == init;
      s
  }

  /** str(n). */
  function FormatInt(n: int): (s: seq<byte>)
    ensures |s| >= 1 && IsAscii(s) && COMMA !in s
    ensures n >= 0 <==> s[0] != MINUS
    ensures forall i | 0 <= i < |s| :: IsDigit(s[i]) || (i == 0 && s[i] == MINUS)
  {
    if n < 0 then [MINUS] + Digits(-n) else Digits(n)
  }

  /** int(s); None stands for the ValueError Python raises. */
  function ParseInt(s: seq<byte>): (r: Option<int>)
    ensures r.Some? ==> COMMA !in s
  {
    if |s| >= 2 && (s[0] == PLUS || s[0] == MINUS) && AllDigits(s[1..]) then
      var v: int := DigitsValue(s[1..]);
      Some(if s[0] == MINUS then -v else v)
    else if |s| >= 1 && AllDigits(s) then Some(DigitsValue(s))
    else None
  }

  /** What str() writes, int() reads back. */
  lemma ParseFormat(n: int)
    ensures ParseInt(FormatInt(n)) == Some(n)
  {
    var s := FormatInt(n);
    if n < 0 {
      assert s[1..] == Digits(-n);
    }
  }

  /** int() accepts leading zeros and an explicit '+': "+007" reads as 7. */
  lemma LenientDigits()
    ensures ParseInt([PLUS, ZERO, ZERO, 55]) == Some(7)
  {
    var s: seq<byte> := [PLUS, ZERO, ZERO, 55];
    var t: seq<byte> := [ZERO, ZERO, 55];
    assert s[1..] == t;
    assert t[..2] == [ZERO, ZERO] && [ZERO, ZERO][..1] == [ZERO] && [ZERO][..0] == [];
    assert DigitsValue([ZERO]) == 0;
    assert DigitsValue([ZERO, ZERO]) == 0;
    assert DigitsValue(t) == 7;
  }

  /** Text without a digit is rejected: "", "-" and "x". */
  lemma NoDigitsRejected()
    ensures ParseInt([]) == None && ParseInt([MINUS]) == None && ParseInt([120]) == None
  {
  }
}
