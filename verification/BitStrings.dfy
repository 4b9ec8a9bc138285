/** Byte strings as bit strings, the lowest bit of each byte first. */
module BitStrings {
  import opened Arith
  import opened Bytes
  import opened Bits

  /** The bits of a byte string in order, of each byte the lowest first. */
  function BitsOf(data: seq<byte>): (s: seq<bool>)
    ensures |s| == 8 * |data|
  {
    seq(8 * |data|, n requires 0 <= n < 8 * |data| => data[n / 8] as nat / Pow2(n % 8) % 2 == 1)
  }

  lemma {:induction false} BitOfNumber(v: nat, k: nat, i: nat)
    requires i < k
    ensures ToBits(v, k)[i] == (v / Pow2(i) % 2 == 1)
    decreases k
  {
    if i > 0 {
      BitOfNumber(v / 2, k - 1, i - 1);
      HalfOfQuotient(v, Pow2(i - 1));
    }
  }

  lemma HalfOfQuotient(v: nat, p: nat)
    requires p >= 1
    ensures v / (2 * p) == v / 2 / p
  {
    var q, r := v / 2 / p, v / 2 % p;
    assert v / 2 == q * p + r;
    assert v == q * (2 * p) + (2 * r + v % 2);
    DivIs(v, 2 * p, q, 2 * r + v % 2);
  }

  lemma BitsOfConcat(a: seq<byte>, b: seq<byte>)
    ensures BitsOf(a + b) == BitsOf(a) + BitsOf(b)
  {
    hide Pow2;
    var l, r := BitsOf(a + b), BitsOf(a) + BitsOf(b);
    forall n | 0 <= n < 8 * |a + b| ensures l[n] == r[n] {
      if n >= 8 * |a| {
        var m := n - 8 * |a|;
        assert n / 8 == |a| + m / 8 && n % 8 == m % 8;
      }
    }
  }
}
