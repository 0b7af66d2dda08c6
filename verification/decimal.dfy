/** Decimal rendering of numbers, as Rust's `to_string` writes a port. */
module Decimal {
  import opened Bytes

  /** An ASCII digit `0`-`9`. */
  predicate IsDigit(c: byte) {
    48 <= c <= 57
  }

  /** The decimal digits of `n`, most significant first, without leading zeros. */
  function Digits(n: nat): (r: seq<byte>)
    ensures 1 <= |r|
    ensures forall i | 0 <= i < |r| :: IsDigit(r[i])
    ensures r[0] == 48 ==> n == 0
  {
    if n < 10 then [(48 + n) as byte]
    else Digits(n / 10) + [(48 + n % 10) as byte]
  }

  /** The number a string of digits denotes. */
  function Value(s: seq<byte>): nat
    requires forall i | 0 <= i < |s| :: IsDigit(s[i])
  {
    if |s| == 0 then 0
    else
      assert IsDigit(s[|s| - 1]);
      Value(s[..|s| - 1]) * 10 + (s[|s| - 1] as int - 48)
  }

  /** Reading the digits back gives the number. */
  lemma {:induction false} ValueOfDigits(n: nat)
    ensures Value(Digits(n)) == n
  {
    if n >= 10 {
      var d := Digits(n);
      assert d[..|d| - 1] == Digits(n / 10);
      ValueOfDigits(n / 10);
    }
  }
}
