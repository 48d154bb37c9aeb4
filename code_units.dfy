/** Java strings as sequences of UTF-16 code units, UTF-8 octets, and the
    hexadecimal digits used by percent escapes. */
module CodeUnits {

  /** One UTF-16 code unit: what `String.charAt` returns. */
  type CodeUnit = c: int | 0 <= c < 0x1_0000

  /** One octet of a UTF-8 encoding. */
  type Byte = b: int | 0 <= b < 0x100

  const PERCENT: CodeUnit := 0x25  // '%'
  const PLUS: CodeUnit := 0x2B     // '+'
  const SPACE: Byte := 0x20        // ' '
  const QUESTION: Byte := 0x3F     // '?'

  /** Every code unit of `s` lies in the 7-bit ASCII range (at most 0x7F). */
  predicate AllAscii(s: seq<CodeUnit>) {
    forall i | 0 <= i < |s| :: s[i] <= 0x7F
  }

  /** '0'-'9', 'A'-'F' or 'a'-'f'. */
  predicate IsHexDigit(c: int) {
    0x30 <= c <= 0x39 || 0x41 <= c <= 0x46 || 0x61 <= c <= 0x66
  }

  /** The value of a hexadecimal digit of either case. */
  function HexValue(c: int): (n: int)
    requires IsHexDigit(c)
    ensures 0 <= n < 16
  {
    if c <= 0x39 then c - 0x30 else if c <= 0x46 then c - 0x41 + 10 else c - 0x61 + 10
  }

  /** The upper-case hexadecimal digit of `n`, as `Character.forDigit` followed by
      upper-casing produces it. */
  function HexDigit(n: int): (c: CodeUnit)
    requires 0 <= n < 16
    ensures IsHexDigit(c) && HexValue(c) == n
    ensures 0x30 <= c <= 0x39 || 0x41 <= c <= 0x46
    ensures c != PERCENT && c <= 0x7F
  {
    if n < 10 then 0x30 + n else 0x41 + (n - 10)
  }
}
