/** Bytes, the ASCII constants the escapers name, and hexadecimal digits. */
module Bytes {

  type byte = c: int | 0 <= c < 256

  const SPACE: byte := 0x20
  const PERCENT: byte := 0x25
  const PLUS: byte := 0x2B
  const SLASH: byte := 0x2F
  const BACKSLASH: byte := 0x5C

  predicate IsHexDigit(c: byte) {
    0x30 <= c <= 0x39 || 0x41 <= c <= 0x46 || 0x61 <= c <= 0x66
  }

  predicate IsAlphanumeric(c: byte) {
    0x30 <= c <= 0x39 || 0x41 <= c <= 0x5A || 0x61 <= c <= 0x7A
  }

  /** The value of a hexadecimal digit of either case. */
  function HexDigitToInt(c: byte): (v: nat)
    requires IsHexDigit(c)
    ensures v < 16
  {
    if c <= 0x39 then c - 0x30
    else if c <= 0x46 then c - 0x37
    else c - 0x57
  }

  /** The upper-case hexadecimal digit for a four-bit value. */
  function IntToHex(i: nat): byte
    requires i < 16
  {
    if i < 10 then 0x30 + i else 0x37 + i
  }

  /** The byte a pair of hexadecimal digits stands for. */
  function HexPair(hi: byte, lo: byte): byte
    requires IsHexDigit(hi) && IsHexDigit(lo)
  {
    HexDigitToInt(hi) * 16 + HexDigitToInt(lo)
  }

  const UPPER_DIGITS := "0123456789ABCDEF"
  const LOWER_DIGITS := "0123456789abcdef"

  /** The sixteen digits of either case, by their position in the usual order, are all there are. */
  lemma HexDigitsByTable(c: byte, v: nat)
    requires v < 16
    ensures c == UPPER_DIGITS[v] as int || c == LOWER_DIGITS[v] as int <==> IsHexDigit(c) && HexDigitToInt(c) == v
    ensures IntToHex(v) == UPPER_DIGITS[v] as int
  {
    assert UPPER_DIGITS[v] as int == if v < 10 then 0x30 + v else 0x37 + v;
    assert LOWER_DIGITS[v] as int == if v < 10 then 0x30 + v else 0x57 + v;
  }

  /** Printing a byte as two digits and reading the pair gives the byte back. */
  lemma HexPairOfByte(c: byte)
    ensures IsHexDigit(IntToHex(c / 16)) && IsHexDigit(IntToHex(c % 16))
    ensures HexPair(IntToHex(c / 16), IntToHex(c % 16)) == c
  {
  }
}
