/**
 * `UInt8.asHexString` and `UInt32.asHexString`: the value in lowercase
 * base 16 (`String(value, radix: 16, uppercase: false)`, which has no
 * leading zeros), then left-padded with '0' to the type's width of two or
 * eight digits.
 */
module Hex {
  newtype uint8 = x: int | 0 <= x < 0x100
  newtype uint32 = x: int | 0 <= x < 0x1_0000_0000

  /** A lowercase hex digit: 0-9 or a-f. */
  predicate IsHexDigit(c: char)
  {
    '0' <= c <= '9' || 'a' <= c <= 'f'
  }

  predicate IsHexString(s: string)
  {
    forall k :: 0 <= k < |s| ==> IsHexDigit(s[k])
  }

  /** The lowercase digit for `d`. */
  function Digit(d: int): (c: char)
    requires 0 <= d < 16
    ensures IsHexDigit(c) && (c == '0' <==> d == 0)
  {
    if d < 10 then ('0' as int + d) as char else ('a' as int + d - 10) as char
  }

  /** The value of one lowercase hex digit: the inverse of `Digit`. */
  function DigitValue(c: char): (d: int)
    requires IsHexDigit(c)
    ensures 0 <= d < 16 && Digit(d) == c
  {
    if '0' <= c <= '9' then c as int - '0' as int else c as int - 'a' as int + 10
  }

  /** Each digit reads back as its value. */
  lemma DigitRoundTrip(d: int)
    requires 0 <= d < 16
    ensures DigitValue(Digit(d)) == d
  {
  }

  /** Reads a string of hex digits, most significant first. */
  function ParseHex(s: string): nat
    requires IsHexString(s)
  {
    if |s| == 0 then 0 else 16 * ParseHex(s[..|s| - 1]) + DigitValue(s[|s| - 1])
  }

  /**
   * `String(n, radix: 16, uppercase: false)`: at least one digit, all of
   * them lowercase hex, no leading zero unless the value is zero, and it
   * reads back as `n`.
   */
  function Radix16(n: nat): (s: string)
    ensures |s| >= 1 && IsHexString(s)
    ensures |s| > 1 ==> s[0] != '0'
    ensures ParseHex(s) == n
    decreases n
  {
    if n < 16 then
      DigitRoundTrip(n);
      assert [Digit(n)][..0] == [];
      [Digit(n)]
    else
      var s := Radix16(n / 16) + [Digit(n % 16)];
      assert s[..|s| - 1] == Radix16(n / 16);
      DigitRoundTrip(n % 16);
      s
  }

  function Pow16(k: nat): nat
  {
    if k == 0 then 1 else 16 * Pow16(k - 1)
  }

  /** A value below 16^k needs at most k digits. */
  lemma {:induction false} Radix16Length(n: nat, k: nat)
    requires 1 <= k && n < Pow16(k)
    ensures |Radix16(n)| <= k
  {
    if n >= 16 {
      Radix16Length(n / 16, k - 1);
    }
  }

  /** Leading zeros drop away, down to a single digit. */
  function StripLeadingZeros(s: string): string
  {
    if |s| > 1 && s[0] == '0' then StripLeadingZeros(s[1..]) else s
  }

  /** A string of zeros reads as 0. */
  lemma {:induction false} ParseZeros(z: string)
    requires forall k :: 0 <= k < |z| ==> z[k] == '0'
    ensures IsHexString(z) && ParseHex(z) == 0
  {
    if |z| > 0 {
      ParseZeros(z[..|z| - 1]);
    }
  }

  /** Zeros in front do not change the value read. */
  lemma {:induction false} ParseLeadingZeros(z: string, s: string)
    requires forall k :: 0 <= k < |z| ==> z[k] == '0'
    requires IsHexString(s)
    ensures IsHexString(z + s) && ParseHex(z + s) == ParseHex(s)
  {
    ParseZeros(z);
    if |s| > 0 {
      ParseLeadingZeros(z, s[..|s| - 1]);
      assert (z + s)[..|z + s| - 1] == z + s[..|s| - 1];
    } else {
      assert z + s == z;
    }
  }

  /** Stripping the zeros put in front of a minimal numeral gives the numeral back. */
  lemma {:induction false} StripPadding(z: string, r: string)
    requires forall k :: 0 <= k < |z| ==> z[k] == '0'
    requires |r| >= 1 && (|r| > 1 ==> r[0] != '0')
    ensures StripLeadingZeros(z + r) == r
  {
    if |z| > 0 {
      assert (z + r)[1..] == z[1..] + r;
      StripPadding(z[1..], r);
    } else {
      assert z + r == r;
    }
  }

  /**
   * The shared body of both getters: the minimal numeral, then '0'
   * prepended while it is shorter than `width`.
   */
  method AsHexString(value: nat, width: int) returns (s: string)
    ensures var r := Radix16(value);
            && |s| == (if |r| < width then width else |r|)
            && s[|s| - |r|..] == r
            && (forall k :: 0 <= k < |s| - |r| ==> s[k] == '0')
    ensures IsHexString(s) && ParseHex(s) == value
    ensures StripLeadingZeros(s) == Radix16(value)
  {
    ghost var r := Radix16(value);
    s := Radix16(value);
    while |s| < width
      invariant |r| <= |s| && (|r| < width ==> |s| <= width) && (|r| >= width ==> s == r)
      invariant s[|s| - |r|..] == r
      invariant forall k :: 0 <= k < |s| - |r| ==> s[k] == '0'
      decreases width - |s|
    {
      s := "0" + s;
    }
    assert s == s[..|s| - |r|] + r;
    ParseLeadingZeros(s[..|s| - |r|], r);
    StripPadding(s[..|s| - |r|], r);
  }

  /** `UInt8.asHexString`: exactly two lowercase hex digits that read back as the value. */
  method UInt8AsHexString(value: uint8) returns (s: string)
    ensures |s| == 2 && IsHexString(s) && ParseHex(s) == value as int
    ensures var r := Radix16(value as int);
            |r| <= 2 && s[2 - |r|..] == r && forall k :: 0 <= k < 2 - |r| ==> s[k] == '0'
    ensures StripLeadingZeros(s) == Radix16(value as int)
  {
    Radix16Length(value as int, 2);
    s := AsHexString(value as int, 2);
  }

  /** `UInt32.asHexString`: exactly eight lowercase hex digits that read back as the value. */
  method UInt32AsHexString(value: uint32) returns (s: string)
    ensures |s| == 8 && IsHexString(s) && ParseHex(s) == value as int
    ensures var r := Radix16(value as int);
            |r| <= 8 && s[8 - |r|..] == r && forall k :: 0 <= k < 8 - |r| ==> s[k] == '0'
    ensures StripLeadingZeros(s) == Radix16(value as int)
  {
    Radix16Length(value as int, 8);
    s := AsHexString(value as int, 8);
  }

  /** 0xab renders as "ab", 10 as "0a", and 0xbeef as "0000beef". */
  method HexScenario() returns (a: string, b: string, c: string)
    ensures a == "ab" && b == "0a" && c == "0000beef"
  {
    a := UInt8AsHexString(0xab);
    assert Radix16(0xab) == "ab";
    b := UInt8AsHexString(10);
    assert Radix16(10) == "a" && b[1..] == "a";
    c := UInt32AsHexString(0xbeef);
    assert Radix16(0xb) == "b";
    assert Radix16(0xbe) == "be";
    assert Radix16(0xbee) == "bee";
    assert Radix16(0xbeef) == "beef" && c[4..] == "beef";
  }
}
