/**
 Lower-case hexadecimal rendering of Java bytes, as produced by the format
 `%02x`: two digits per byte, high nibble first, negative bytes shown as their
 unsigned value, values below 16 padded with a leading zero.
 */
module Hex {
  import opened Options
  import opened JavaBytes

  /** The digits the `x` conversion emits: `0`-`9` and the lower-case `a`-`f`. */
  predicate IsLowerHexDigit(c: char)
  {
    ('0' <= c <= '9') || ('a' <= c <= 'f')
  }

  /** True iff every character of `s` is a lower-case hex digit. */
  predicate IsLowerHex(s: string)
  {
    forall i :: 0 <= i < |s| ==> IsLowerHexDigit(s[i])
  }

  /** The value of a hex digit of either case; `None` for any other character. */
  function DigitValue(c: char): (v: Option<int>)
    ensures v.Some? <==> IsLowerHexDigit(c) || ('A' <= c <= 'F')
    ensures v.Some? ==> 0 <= v.value < 16
  {
    if '0' <= c <= '9' then Some(c as int - '0' as int)
    else if 'a' <= c <= 'f' then Some(c as int - 'a' as int + 10)
    else if 'A' <= c <= 'F' then Some(c as int - 'A' as int + 10)
    else None
  }

  /** The lower-case digit for the nibble `n`. */
  function HexDigit(n: int): (c: char)
    requires 0 <= n < 16
    ensures IsLowerHexDigit(c)
    ensures DigitValue(c) == Some(n)
  {
    if n < 10 then ('0' as int + n) as char else ('a' as int + n - 10) as char
  }

  /** A lower-case digit is the digit of its own value. */
  lemma LowerDigitRoundTrip(c: char)
    requires IsLowerHexDigit(c)
    ensures DigitValue(c).Some? && HexDigit(DigitValue(c).value) == c
  {
  }

  /** The two characters a byte contributes: the digits of its high and low
      nibble, in that order, read from the unsigned value. */
  function HexByte(b: Int8): (r: string)
    ensures |r| == 2 && IsLowerHex(r)
    ensures DigitValue(r[0]) == Some(Unsigned(b) / 16)
    ensures DigitValue(r[1]) == Some(Unsigned(b) % 16)
  {
    var u := Unsigned(b);
    [HexDigit(u / 16), HexDigit(u % 16)]
  }

  /** The hex text of a byte sequence: each byte's two digits, in input order. */
  function EncodeBytes(bs: seq<Int8>): (r: string)
    ensures |r| == 2 * |bs|
    ensures IsLowerHex(r)
  {
    if |bs| == 0 then "" else HexByte(bs[0]) + EncodeBytes(bs[1..])
  }

  /** Encoding distributes over concatenation of the input. */
  lemma {:induction false} EncodeAppend(a: seq<Int8>, b: seq<Int8>)
    ensures EncodeBytes(a + b) == EncodeBytes(a) + EncodeBytes(b)
    decreases |a|
  {
    if |a| == 0 {
      assert a + b == b;
    } else {
      assert (a + b)[1..] == a[1..] + b;
      EncodeAppend(a[1..], b);
    }
  }

  /** Byte `i` of the input is rendered at characters `2i` and `2i+1` of the output. */
  lemma {:induction false} EncodeAt(bs: seq<Int8>, i: int)
    requires 0 <= i < |bs|
    ensures EncodeBytes(bs)[2 * i .. 2 * i + 2] == HexByte(bs[i])
    decreases i
  {
    var rest := EncodeBytes(bs[1..]);
    assert EncodeBytes(bs) == HexByte(bs[0]) + rest;
    if i > 0 {
      EncodeAt(bs[1..], i - 1);
      assert EncodeBytes(bs)[2 * i .. 2 * i + 2] == rest[2 * (i - 1) .. 2 * (i - 1) + 2];
    }
  }

  /*
   * Reference semantics of `String.format("%02x", b)` for a `Byte` argument,
   * following java.util.Formatter: a negative value is first made unsigned by
   * adding 2^8, the value is written in base 16 with no leading zeros, and the
   * result is padded on the left with '0' to the field width 2.
   */

  /** The base-16 digits of `n` without leading zeros (`"0"` for zero). */
  function ToHexString(n: nat): (r: string)
    ensures |r| >= 1 && IsLowerHex(r)
    ensures n > 0 ==> r[0] != '0'
    decreases n
  {
    if n < 16 then [HexDigit(n)] else ToHexString(n / 16) + [HexDigit(n % 16)]
  }

  /** `s` padded on the left with '0' to at least `width` characters. */
  function ZeroPad(s: string, width: nat): (r: string)
    ensures |s| >= width ==> r == s
    ensures |s| < width ==> |r| == width
    ensures r[|r| - |s|..] == s
    ensures forall i :: 0 <= i < |r| - |s| ==> r[i] == '0'
  {
    if |s| >= width then s else seq(width - |s|, _ => '0') + s
  }

  /** What `String.format("%02x", b)` yields for the byte `b`. */
  function Format02x(b: Int8): string
  {
    ZeroPad(ToHexString(Unsigned(b)), 2)
  }

  /** The nibble rendering and the formatter's rendering agree on every byte. */
  lemma HexByteIsFormat02x(b: Int8)
    ensures HexByte(b) == Format02x(b)
  {
    var u := Unsigned(b);
    if u < 16 {
      assert ToHexString(u) == [HexDigit(u)];
      assert HexDigit(u / 16) == '0';
    } else {
      assert ToHexString(u / 16) == [HexDigit(u / 16)];
      assert ToHexString(u) == [HexDigit(u / 16), HexDigit(u % 16)];
    }
  }

  /** The formatter pads exactly the bytes whose unsigned value is below 16,
      and padding shows as a leading '0'. */
  lemma ZeroPadding(b: Int8)
    ensures |ToHexString(Unsigned(b))| == 1 <==> Unsigned(b) < 16
    ensures HexByte(b)[0] == '0' <==> Unsigned(b) < 16
  {
  }

  /** A negative byte is exactly one whose high digit is 8 or more: the sign
      bit becomes part of the high nibble, never a minus sign. */
  lemma NegativeByteHighDigit(b: Int8)
    ensures b < 0 <==> DigitValue(HexByte(b)[0]).value >= 8
    ensures '-' !in HexByte(b)
  {
  }

  /** Worked values: both sign extremes, a padded value, zero, the largest
      positive byte, and the empty input. */
  lemma FormatExamples()
    ensures HexByte(-1) == "ff"
    ensures HexByte(-128) == "80"
    ensures HexByte(10) == "0a"
    ensures HexByte(0) == "00"
    ensures HexByte(127) == "7f"
    ensures EncodeBytes([]) == ""
  {
  }
}
