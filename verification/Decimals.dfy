/** Numbers printed in decimal. */
module Decimals {
  import opened Basics

  predicate Digit(b: Byte) {
    0x30 <= b <= 0x39
  }

  function DigitValue(b: Byte): nat
    requires Digit(b)
  {
    b - 0x30
  }

  function Decimal(n: nat): (s: Bytes)
    ensures s != [] && forall k :: 0 <= k < |s| ==> Digit(s[k])
  {
    if n < 10 then [0x30 + n] else Decimal(n / 10) + [0x30 + n % 10]
  }
}
