/** Bytes, the ASCII operations of the Rust standard library on them, and decimal numerals. */
module Bytes {
  type byte = bv8
  type bytes = seq<byte>

  /** The unsigned value of a byte, bit by bit. */
  function ByteValue(b: byte): nat
    decreases b
  {
    if b == 0 then 0 else 2 * ByteValue(b >> 1) + (if b & 1 == 1 then 1 else 0)
  }

  lemma {:induction false} ByteValueIsCast(b: byte)
    ensures ByteValue(b) == b as nat
    decreases b
  {
    if b != 0 {
      ByteValueIsCast(b >> 1);
      assert b as nat == 2 * ((b >> 1) as nat) + (if b & 1 == 1 then 1 else 0);
    }
  }

  const CR: byte := 0x0D
  const LF: byte := 0x0A
  const SPACE: byte := 0x20
  const QUOTE: byte := 0x22
  const COLON: byte := 0x3A
  const BACKSLASH: byte := 0x5C

  const CRLF: bytes := [0x0D, 0x0A]
  /** The blank line between the headers and the body of an HTTP message. */
  const BLANK_LINE: bytes := [0x0D, 0x0A, 0x0D, 0x0A]

  function LowerByte(b: byte): byte {
    if 0x41 <= b <= 0x5A then b + 0x20 else b
  }

  /** `to_ascii_lowercase` */
  function Lower(s: bytes): (lower: bytes)
    ensures |lower| == |s|
  {
    seq(|s|, i requires 0 <= i < |s| => LowerByte(s[i]))
  }

  /** The same byte, or the upper-case and the lower-case form of one letter. */
  predicate SameLetter(a: byte, b: byte) {
    || a == b
    || (0x41 <= a <= 0x5A && b == a + 0x20)
    || (0x41 <= b <= 0x5A && a == b + 0x20)
  }

  /** `eq_ignore_ascii_case` */
  predicate SameIgnoringCase(s: bytes, t: bytes) {
    |s| == |t| && forall i | 0 <= i < |s| :: SameLetter(s[i], t[i])
  }

  lemma LowerByteExactly(a: byte, b: byte)
    ensures LowerByte(a) == LowerByte(b) <==> SameLetter(a, b)
  {
  }

  /** Two strings have the same lower-case form exactly when they differ in the case of letters only. */
  lemma LowerExactly(s: bytes, t: bytes)
    ensures Lower(s) == Lower(t) <==> SameIgnoringCase(s, t)
  {
    forall i | 0 <= i < |s| && i < |t|
      ensures LowerByte(s[i]) == LowerByte(t[i]) <==> SameLetter(s[i], t[i])
    {
      LowerByteExactly(s[i], t[i]);
    }
    if Lower(s) == Lower(t) {
      assert |s| == |Lower(s)| == |Lower(t)| == |t|;
      assert forall i | 0 <= i < |s| :: LowerByte(s[i]) == Lower(s)[i] == Lower(t)[i] == LowerByte(t[i]);
    }
  }

  const DIGITS: bytes := [0x30, 0x31, 0x32, 0x33, 0x34, 0x35, 0x36, 0x37, 0x38, 0x39]

  predicate IsDigit(b: byte) {
    0x30 <= b <= 0x39
  }

  lemma DigitsAreDigits(d: nat)
    requires d < 10
    ensures IsDigit(DIGITS[d])
  {
  }

  /** The decimal numeral that formatting a `usize` gives. */
  function Decimal(n: nat): (s: bytes)
    ensures s != []
  {
    if n < 10 then [DIGITS[n]] else Decimal(n / 10) + [DIGITS[n % 10]]
  }

  lemma {:induction false} DecimalIsDigits(n: nat)
    ensures forall i | 0 <= i < |Decimal(n)| :: IsDigit(Decimal(n)[i])
  {
    if n < 10 {
      DigitsAreDigits(n);
    } else {
      DecimalIsDigits(n / 10);
      DigitsAreDigits(n % 10);
    }
  }

  /** Only the numeral of zero starts with the digit zero. */
  lemma {:induction false} NoLeadingZero(n: nat)
    ensures Decimal(n)[0] == 0x30 <==> n == 0
  {
    if n >= 10 {
      NoLeadingZero(n / 10);
    }
  }

  function DigitValue(b: byte): nat {
    if b == 0x30 then 0 else if b == 0x31 then 1 else if b == 0x32 then 2 else if b == 0x33 then 3
    else if b == 0x34 then 4 else if b == 0x35 then 5 else if b == 0x36 then 6 else if b == 0x37 then 7
    else if b == 0x38 then 8 else 9
  }

  function DecimalValue(s: bytes): nat {
    if s == [] then 0 else 10 * DecimalValue(s[..|s| - 1]) + DigitValue(s[|s| - 1])
  }

  lemma DigitRoundTrip(d: nat)
    requires d < 10
    ensures DigitValue(DIGITS[d]) == d
  {
  }

  lemma LastDigit(s: bytes, b: byte)
    ensures DecimalValue(s + [b]) == 10 * DecimalValue(s) + DigitValue(b)
  {
    assert (s + [b])[..|s + [b]| - 1] == s;
  }

  /** Numerals denote their number, so different numbers have different numerals. */
  lemma {:induction false} DecimalRoundTrip(n: nat)
    ensures DecimalValue(Decimal(n)) == n
  {
    if n < 10 {
      DigitRoundTrip(n);
      LastDigit([], DIGITS[n]);
      assert [] + [DIGITS[n]] == [DIGITS[n]];
    } else {
      DecimalRoundTrip(n / 10);
      DigitRoundTrip(n % 10);
      LastDigit(Decimal(n / 10), DIGITS[n % 10]);
    }
  }

  predicate AllDigits(s: bytes) {
    s != [] && forall i | 0 <= i < |s| :: IsDigit(s[i])
  }

  lemma DigitsOfValue(b: byte)
    requires IsDigit(b)
    ensures DigitValue(b) < 10 && DIGITS[DigitValue(b)] == b
  {
  }

  lemma {:induction false} PositiveValue(s: bytes)
    requires AllDigits(s) && s[0] != 0x30
    ensures DecimalValue(s) > 0
  {
    if |s| > 1 {
      PositiveValue(s[..|s| - 1]);
    } else {
      DigitsOfValue(s[0]);
    }
  }

  /** `s` is the numeral of its value, if it has no leading zero. */
  lemma {:induction false} NumeralOfValue(s: bytes)
    requires AllDigits(s) && (|s| > 1 ==> s[0] != 0x30)
    ensures Decimal(DecimalValue(s)) == s
  {
    var front, last := s[..|s| - 1], s[|s| - 1];
    DigitsOfValue(last);
    assert s == front + [last];
    if front != [] {
      PositiveValue(front);
      NumeralOfValue(front);
      assert DecimalValue(s) / 10 == DecimalValue(front) && DecimalValue(s) % 10 == DigitValue(last);
    } else {
      assert DecimalValue(front) == 0;
    }
  }

  /** The numeral of a number is the one string of digits that denotes it and has no leading zero. */
  lemma DecimalExactly(n: nat, s: bytes)
    ensures s == Decimal(n) <==> AllDigits(s) && DecimalValue(s) == n && (|s| > 1 ==> s[0] != 0x30)
  {
    DecimalIsDigits(n);
    DecimalRoundTrip(n);
    NoLeadingZero(n);
    if AllDigits(s) && DecimalValue(s) == n && (|s| > 1 ==> s[0] != 0x30) {
      NumeralOfValue(s);
    }
  }
}
