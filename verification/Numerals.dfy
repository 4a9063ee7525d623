// Digits in decimal and hexadecimal, and the larger of two numbers.
module Numerals {
  import opened Options

  function Max(x: int, y: int): int {
    if x >= y then x else y
  }

  const HEX := "0123456789abcdef"

  function LowerHex(d: nat): char {
    if d < 16 then HEX[d] else '?'
  }

  function Decimal(n: nat): string {
    if n < 10 then [LowerHex(n)] else Decimal(n / 10) + [LowerHex(n % 10)]
  }

  // A hexadecimal digit of either case.
  function DigitValue(c: char): Option<nat> {
    if '0' <= c <= '9' then Some(c as int - '0' as int)
    else if 'a' <= c <= 'f' then Some(c as int - 'a' as int + 10)
    else if 'A' <= c <= 'F' then Some(c as int - 'A' as int + 10)
    else None
  }
}
