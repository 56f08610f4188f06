/**
 * Bytes as the helpers compute with them (`System.Byte`), and the two-digit
 * hexadecimal spellings used by the MAC address and MD5 formatting.
 */
module Bytes {

  /** An unsigned 8-bit value. */
  newtype byte = b: int | 0 <= b < 256

  /** The digit for `d` in base 16, upper or lower case. */
  function HexDigit(d: int, upper: bool): (c: char)
    requires 0 <= d < 16
    ensures IsHexChar(c)
    ensures upper ==> !('a' <= c <= 'f')
    ensures !upper ==> !('A' <= c <= 'F')
  {
    if d < 10 then ('0' as int + d) as char
    else if upper then ('A' as int + d - 10) as char
    else ('a' as int + d - 10) as char
  }

  /** The character class `[0-9a-fA-F]`. */
  predicate IsHexChar(c: char) {
    '0' <= c <= '9' || 'a' <= c <= 'f' || 'A' <= c <= 'F'
  }

  /** The value of a hexadecimal digit of either case. */
  function HexValue(c: char): (v: int)
    requires IsHexChar(c)
    ensures 0 <= v < 16
  {
    if '0' <= c <= '9' then c as int - '0' as int
    else if 'a' <= c <= 'f' then c as int - 'a' as int + 10
    else c as int - 'A' as int + 10
  }

  /** Reading a digit back gives the value it was written for, in either case. */
  lemma HexDigitValue(d: int, upper: bool)
    requires 0 <= d < 16
    ensures HexValue(HexDigit(d, upper)) == d
  {
  }

  /**
   * `n.ToString("x2")` (lower case) or `b.ToString("X2")` (upper case) for a
   * value below 256: exactly two digits, high nibble first.
   */
  function Hex2(n: int, upper: bool): (s: string)
    requires 0 <= n < 256
    ensures |s| == 2 && IsHexChar(s[0]) && IsHexChar(s[1])
    ensures upper ==> !('a' <= s[0] <= 'f') && !('a' <= s[1] <= 'f')
    ensures !upper ==> !('A' <= s[0] <= 'F') && !('A' <= s[1] <= 'F')
    ensures HexValue(s[0]) * 16 + HexValue(s[1]) == n
  {
    HexDigitValue(n / 16, upper);
    HexDigitValue(n % 16, upper);
    [HexDigit(n / 16, upper), HexDigit(n % 16, upper)]
  }
}
