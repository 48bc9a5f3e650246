/**
 * JavaScript's `parseInt` on strings, and the `validateInteger` helper built on
 * it. NaN is modelled as None.
 */
module JsNumbers {
  import opened Common

  /** `parseInt(s)` (hexadecimal "0x" prefix recognised) or `parseInt(s, 10)`. */
  datatype Radix = NoRadix | Radix10

  /** The value of a character as a digit of base up to 36, or 36 when it is no digit at all. */
  function DigitValue(c: char): (v: nat)
    ensures v <= 36
    ensures v < 10 <==> IsDigit(c)
    ensures IsDigit(c) ==> v == c as int - '0' as int
  {
    if '0' <= c <= '9' then c as int - '0' as int
    else if 'a' <= c <= 'z' then c as int - 'a' as int + 10
    else if 'A' <= c <= 'Z' then c as int - 'A' as int + 10
    else 36
  }

  /** The length of the longest prefix of s made of digits of the base. */
  function LeadingDigits(s: string, base: nat): (n: nat)
    ensures n <= |s|
    ensures forall i :: 0 <= i < n ==> DigitValue(s[i]) < base
    ensures n < |s| ==> DigitValue(s[n]) >= base
  {
    if s == [] || DigitValue(s[0]) >= base then 0 else 1 + LeadingDigits(s[1..], base)
  }

  /** The value of a string of digits of the base, most significant first. */
  function DigitsIn(s: string, base: nat): nat
    requires forall i :: 0 <= i < |s| ==> DigitValue(s[i]) < base
  {
    if s == [] then 0 else DigitsIn(s[..|s| - 1], base) * base + DigitValue(s[|s| - 1])
  }

  /** The longest run of digits of the base at the start of s, read as a number; None when it is empty. */
  function ReadDigits(s: string, base: nat): (r: Option<int>)
    ensures r.Some? ==> r.value >= 0
    ensures r.None? <==> s == [] || DigitValue(s[0]) >= base
  {
    var n := LeadingDigits(s, base);
    if n == 0 then None else Some(DigitsIn(s[..n], base))
  }

  /** Whether the unsigned text switches to base 16: no radix given and a "0x"/"0X" prefix. */
  predicate HexPrefixed(u: string, radix: Radix)
  {
    radix.NoRadix? && |u| >= 2 && u[0] == '0' && (u[1] == 'x' || u[1] == 'X')
  }

  /** The number after the sign. */
  function ParseMagnitude(u: string, radix: Radix): (r: Option<int>)
    ensures r.Some? ==> r.value >= 0
  {
    if HexPrefixed(u, radix) then ReadDigits(u[2..], 16) else ReadDigits(u, 10)
  }

  /**
   * `parseInt`: skip leading whitespace, take one optional sign, with no radix
   * take "0x"/"0X" as a switch to base 16, then read the longest run of digits;
   * NaN (None) when that run is empty.
   */
  function ParseInt(s: string, radix: Radix): (r: Option<int>)
    ensures r.Some? && r.value < 0 ==> TrimStart(s) != [] && TrimStart(s)[0] == '-'
  {
    var t := TrimStart(s);
    if t != [] && t[0] == '-' then
      var m := ParseMagnitude(t[1..], radix);
      if m.None? then None else Some(-m.value)
    else if t != [] && t[0] == '+' then ParseMagnitude(t[1..], radix)
    else ParseMagnitude(t, radix)
  }

  /** In base 10 the digit reading agrees with the decimal value. */
  lemma {:induction false} DigitsInDecimal(s: string)
    requires AllDigits(s)
    ensures forall i :: 0 <= i < |s| ==> DigitValue(s[i]) < 10
    ensures DigitsIn(s, 10) == DigitsValue(s)
  {
    if s != [] {
      DigitsInDecimal(s[..|s| - 1]);
    }
  }

  /** A run of decimal digits stopped by the end of the string or a non-digit is read whole. */
  lemma ReadDigitsOfDecimal(d: string, tail: string)
    requires |d| >= 1 && AllDigits(d)
    requires tail == [] || !IsDigit(tail[0])
    ensures ReadDigits(d + tail, 10) == Some(DigitsValue(d))
  {
    var s := d + tail;
    assert forall i :: 0 <= i < |d| ==> s[i] == d[i];
    assert tail != [] ==> s[|d|] == tail[0];
    assert LeadingDigits(s, 10) == |d|;
    assert s[..|d|] == d;
    DigitsInDecimal(d);
  }

  /** A rendered number is read back whole unless a lone 0 is followed by "x" with no radix given. */
  lemma ParseMagnitudeOfDecimal(n: nat, tail: string, radix: Radix)
    requires tail == [] || !IsDigit(tail[0])
    requires radix.NoRadix? && n == 0 ==> tail == [] || (tail[0] != 'x' && tail[0] != 'X')
    ensures ParseMagnitude(Decimal(n) + tail, radix) == Some(n)
  {
    var d := Decimal(n);
    var s := d + tail;
    assert s[0] == d[0];
    assert |d| >= 2 ==> s[1] == d[1];
    assert |d| == 1 && tail != [] ==> s[1] == tail[0];
    assert n < 10 ==> d == [DigitChar(n)];
    assert !HexPrefixed(s, radix);
    ReadDigitsOfDecimal(d, tail);
    DecimalRoundTrip(n);
  }

  /**
   * Reading back a rendered number followed by anything that is not a digit
   * gives the number, in both radix modes; "0x…" after a lone 0 is the one
   * exception without a radix, where it starts a hexadecimal number.
   */
  lemma ParseIntOfDecimal(n: nat, tail: string, radix: Radix)
    requires tail == [] || !IsDigit(tail[0])
    requires radix.NoRadix? && n == 0 ==> tail == [] || (tail[0] != 'x' && tail[0] != 'X')
    ensures ParseInt(Decimal(n) + tail, radix) == Some(n)
  {
    var s := Decimal(n) + tail;
    assert s[0] == Decimal(n)[0];
    assert TrimStart(s) == s;
    ParseMagnitudeOfDecimal(n, tail, radix);
  }

  /** A leading minus sign negates the number read. */
  lemma ParseIntOfNegative(n: nat, radix: Radix)
    ensures ParseInt("-" + Decimal(n), radix) == Some(-(n as int))
  {
    var d := Decimal(n);
    var s := "-" + d;
    assert TrimStart(s) == s;
    assert s[1..] == d + [];
    ParseMagnitudeOfDecimal(n, [], radix);
  }

  /** Without a radix, "0x" followed by hexadecimal digits is read in base 16; with radix 10 it reads as 0. */
  lemma ParseIntHexPrefix(s: string)
    requires |s| >= 3 && s[0] == '0' && s[1] == 'x'
    requires forall i :: 2 <= i < |s| ==> DigitValue(s[i]) < 16
    ensures forall i :: 0 <= i < |s[2..]| ==> DigitValue(s[2..][i]) < 16
    ensures ParseInt(s, NoRadix) == Some(DigitsIn(s[2..], 16))
    ensures ParseInt(s, Radix10) == Some(0)
  {
    var h := s[2..];
    assert TrimStart(s) == s;
    assert HexPrefixed(s, NoRadix);
    assert LeadingDigits(h, 16) == |h|;
    assert h[..|h|] == h;
    assert LeadingDigits(s, 10) == 1;
    assert s[..1] == [s[0]];
    assert DigitsIn(s[..1], 10) == 0;
  }

  /**
   * `validateInteger`: a falsy value is null; otherwise `parseInt(value)`, with
   * NaN turned into null.
   */
  function ValidateInteger(value: Option<string>): (r: Option<int>)
    ensures !Truthy(value) ==> r.None?
    ensures Truthy(value) ==> r == ParseInt(value.value, NoRadix)
  {
    if !Truthy(value) then None else ParseInt(value.value, NoRadix)
  }

  /** A rendered non-negative number validates to itself. */
  lemma ValidateIntegerOfDecimal(n: nat)
    ensures ValidateInteger(Some(Decimal(n))) == Some(n)
  {
    ParseIntOfDecimal(n, [], NoRadix);
    assert Decimal(n) + [] == Decimal(n);
  }
}
