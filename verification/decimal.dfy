/** Decimal text for integers as the Kotlin standard library reads and
    writes it: `String.toIntOrNull()`, `String.toULongOrNull()`,
    `Int.toString()` and `ULong.toString()`, restricted to ASCII digits. */
module Decimal {
  import opened Wrappers

  /** Kotlin's 32-bit signed `Int`. */
  type Int32 = x: int | -0x8000_0000 <= x < 0x8000_0000

  /** Kotlin's unsigned 64-bit `ULong`. */
  type ULong = x: int | 0 <= x < 0x1_0000_0000_0000_0000

  predicate IsDigit(c: char) {
    '0' <= c <= '9'
  }

  predicate AllDigits(s: string) {
    forall k :: 0 <= k < |s| ==> IsDigit(s[k])
  }

  function DigitValue(c: char): (d: nat)
    requires IsDigit(c)
    ensures d < 10
  {
    c as int - '0' as int
  }

  function DigitChar(d: nat): (c: char)
    requires d < 10
    ensures IsDigit(c) && DigitValue(c) == d
  {
    ('0' as int + d) as char
  }

  /** The number a string of decimal digits denotes (leading zeros allowed). */
  function DigitsValue(s: string): nat
    requires AllDigits(s)
  {
    if s == [] then 0
    else DigitsValue(s[..|s| - 1]) * 10 + DigitValue(s[|s| - 1])
  }

  /** `toString()` of a non-negative number: the shortest digit string. */
  function NatToDecimal(n: nat): (r: string)
    ensures 1 <= |r| && AllDigits(r)
    ensures DigitsValue(r) == n
    ensures |r| > 1 ==> r[0] != '0'
    decreases n
  {
    if n < 10 then [DigitChar(n)]
    else
      var r := NatToDecimal(n / 10) + [DigitChar(n % 10)];
      assert r[..|r| - 1] == NatToDecimal(n / 10);
      r
  }

  /** `Int.toString()`: a minus sign for negative values, then the digits. */
  function IntToDecimal(i: int): (r: string)
    ensures 1 <= |r|
    ensures forall k :: 0 <= k < |r| ==> IsDigit(r[k]) || (k == 0 && r[k] == '-')
    ensures i < 0 <==> r[0] == '-'
  {
    if i < 0 then "-" + NatToDecimal(0 - i) else NatToDecimal(i)
  }

  /** `String.toULongOrNull()`: an optional `+`, at least one digit, and a
      value that fits in 64 unsigned bits; no `-`. */
  function ParseULong(s: string): (r: Option<ULong>)
    ensures r.Some? ==> 1 <= |s|
    ensures r.Some? ==> forall k :: 0 <= k < |s| ==> IsDigit(s[k]) || (k == 0 && s[k] == '+')
  {
    if |s| == 0 then None
    else
      var digits := if s[0] == '+' then s[1..] else s;
      if |digits| > 0 && AllDigits(digits) && DigitsValue(digits) < 0x1_0000_0000_0000_0000
      then Some(DigitsValue(digits))
      else None
  }

  /** `String.toIntOrNull()`: an optional `+` or `-`, at least one digit,
      and a value within the 32-bit signed range. */
  function ParseInt32(s: string): (r: Option<Int32>)
    ensures r.Some? ==> 1 <= |s|
    ensures r.Some? ==> forall k :: 0 <= k < |s| ==> IsDigit(s[k]) || (k == 0 && (s[k] == '+' || s[k] == '-'))
  {
    if |s| == 0 then None
    else
      var negative := s[0] == '-';
      var digits := if s[0] == '-' || s[0] == '+' then s[1..] else s;
      if |digits| > 0 && AllDigits(digits) then
        var v: int := if negative then 0 - DigitsValue(digits) as int else DigitsValue(digits);
        if -0x8000_0000 <= v < 0x8000_0000 then Some(v) else None
      else None
  }

  /** Writing a `ULong` in decimal and reading it back gives the same value. */
  lemma ULongRoundTrip(c: ULong)
    ensures ParseULong(NatToDecimal(c)) == Some(c)
  {
    var d := NatToDecimal(c);
    assert d[0] != '+' by { assert IsDigit(d[0]); }
  }

  /** Writing an `Int` in decimal and reading it back gives the same value,
      negative values included. */
  lemma Int32RoundTrip(i: Int32)
    ensures ParseInt32(IntToDecimal(i)) == Some(i)
  {
    var s := IntToDecimal(i);
    if i < 0 {
      var m: int := 0 - i as int;
      assert s[1..] == NatToDecimal(m);
    } else {
      assert IsDigit(s[0]);
    }
  }

  /** The empty prefix, a bare sign and the first value past `Int.MAX_VALUE`
      are all rejected, while `Int.MIN_VALUE` is accepted. */
  lemma ParseInt32Edges()
    ensures ParseInt32("") == None
    ensures ParseInt32("-") == None && ParseInt32("+") == None
    ensures ParseInt32("2147483648") == None
    ensures ParseInt32("-2147483648") == Some(-0x8000_0000)
    ensures ParseInt32("+07") == Some(7)
  {
    MinIntMagnitude();
    assert "-2147483648"[1..] == "2147483648";
    assert "+07"[1..] == "07";
    assert "07"[..1] == "0";
  }

  /** The digits of `Int.MIN_VALUE`'s magnitude read as 2^31. */
  lemma MinIntMagnitude()
    ensures DigitsValue("2147483648") == 2147483648
  {
    assert "2147483648"[..9] == "214748364";
    assert "214748364"[..8] == "21474836";
    assert "21474836"[..7] == "2147483";
    assert "2147483"[..6] == "214748";
    assert "214748"[..5] == "21474";
    assert "21474"[..4] == "2147";
    assert "2147"[..3] == "214";
    assert "214"[..2] == "21";
    assert "21"[..1] == "2";
  }

  /** Every optionally `+`-signed, non-empty ASCII digit string is read
      as its value when that fits in 64 unsigned bits, leading zeros
      included, and rejected otherwise. With the contract of `ParseULong`
      (accepted text has exactly this shape) this fixes the parser. */
  lemma ParseULongDigits(sign: string, digits: string)
    requires sign == "" || sign == "+"
    requires |digits| > 0 && AllDigits(digits)
    ensures ParseULong(sign + digits) ==
      if DigitsValue(digits) < 0x1_0000_0000_0000_0000 then Some(DigitsValue(digits)) else None
  {
    var s := sign + digits;
    if sign == "+" {
      assert s[1..] == digits;
    } else {
      assert s == digits;
      assert IsDigit(s[0]);
    }
  }

  /** Every optionally `+`/`-`-signed, non-empty ASCII digit string is read
      as its signed value when that lies in the 32-bit range, leading zeros
      included, and rejected otherwise. With the contract of `ParseInt32`
      this fixes the parser. */
  lemma ParseInt32Digits(sign: string, digits: string)
    requires sign == "" || sign == "+" || sign == "-"
    requires |digits| > 0 && AllDigits(digits)
    ensures var v: int := if sign == "-" then 0 - DigitsValue(digits) as int else DigitsValue(digits);
      ParseInt32(sign + digits) == if -0x8000_0000 <= v < 0x8000_0000 then Some(v) else None
  {
    var s := sign + digits;
    if sign == "" {
      assert s == digits;
      assert IsDigit(s[0]);
    } else {
      assert s[1..] == digits;
    }
  }

  /** The largest `ULong` is accepted and the next value is not. */
  lemma ParseULongBoundary()
    ensures ParseULong(NatToDecimal(0xFFFF_FFFF_FFFF_FFFF)) == Some(0xFFFF_FFFF_FFFF_FFFF)
    ensures ParseULong(NatToDecimal(0x1_0000_0000_0000_0000)) == None
  {
    ULongRoundTrip(0xFFFF_FFFF_FFFF_FFFF);
    ParseULongDigits("", NatToDecimal(0x1_0000_0000_0000_0000));
    assert "" + NatToDecimal(0x1_0000_0000_0000_0000) == NatToDecimal(0x1_0000_0000_0000_0000);
  }

  /** An unsigned value is never negative, and `+` is the only sign allowed. */
  lemma ParseULongEdges()
    ensures ParseULong("") == None && ParseULong("+") == None
    ensures ParseULong("-1") == None
    ensures ParseULong("+5") == Some(5)
  {
    assert "+5"[1..] == "5";
  }
}
