/**
 * Decimal digits and truncating division, shared by the integer parser, the calendar
 * arithmetic and the time formatter.
 */
module DecimalDigits {

  predicate IsDigit(c: char) {
    '0' <= c <= '9'
  }

  /** The character of a digit 0 to 9. */
  function DigitChar(d: int): (c: char)
    requires 0 <= d <= 9
    ensures IsDigit(c) && DigitValue(c) == d
  {
    ('0' as int + d) as char
  }

  /** The number a digit character stands for. */
  function DigitValue(c: char): int {
    c as int - '0' as int
  }

  /** Division truncated towards zero: C's `/`, and Python's `int()` of a quotient. */
  function TruncDiv(a: int, b: int): (q: int)
    requires b > 0
    ensures a >= 0 ==> q * b <= a < q * b + b
    ensures a < 0 ==> q * b - b < a <= q * b
  {
    if a >= 0 then a / b else -((-a) / b)
  }
}
