/** Decimal text, shared by the reader and the printer of numbers and by the code generator. */
module Decimals {
  function Zeros(n: nat): (s: string)
    ensures |s| == n
  {
    seq(n, _ => '0')
  }

  function DecimalDigit(d: nat): char
    requires d < 10
  {
    '0' + d as char
  }

  // A number in decimal, without leading zeros.
  function Decimal(n: nat): (s: string)
    ensures s != []
  {
    if n < 10 then [DecimalDigit(n)] else Decimal(n / 10) + [DecimalDigit(n % 10)]
  }
}
