/** Decimal numerals: what `os << n` prints and what `lexical_cast` reads. */
module Decimal {
  import opened Bytes

  predicate AllDigits(s: seq<byte>) {
    forall i :: 0 <= i < |s| ==> IsDigit(s[i])
  }

  function NatOf(s: seq<byte>): nat
    requires AllDigits(s)
  {
    if s == [] then 0 else NatOf(s[..|s| - 1]) * 10 + (s[|s| - 1] - ZERO) as int
  }

  function DigitsOf(n: nat): (s: seq<byte>)
    ensures |s| >= 1 && AllDigits(s)
  {
    if n < 10 then [ZERO + n as byte] else DigitsOf(n / 10) + [ZERO + (n % 10) as byte]
  }

  lemma {:induction false} NatOfDigitsOf(n: nat)
    ensures NatOf(DigitsOf(n)) == n
  {
    var s := DigitsOf(n);
    if n < 10 {
      assert s[..0] == [];
    } else {
      NatOfDigitsOf(n / 10);
      assert s[..|s| - 1] == DigitsOf(n / 10);
    }
  }

  /** The numeral of a positive number has no leading zero. */
  lemma {:induction false} NoLeadingZero(n: nat)
    requires n > 0
    ensures DigitsOf(n)[0] != ZERO
  {
    if n >= 10 {
      NoLeadingZero(n / 10);
    }
  }
}
