/** Unsigned machine words as their bits, least significant first. */
module Bits {
  function Bit(b: bool): nat {
    if b then 1 else 0
  }

  /** The k low bits of n. */
  function ToBits(n: nat, k: nat): (b: seq<bool>)
    ensures |b| == k
    decreases k
  {
    if k == 0 then [] else [n % 2 == 1] + ToBits(n / 2, k - 1)
  }

  function FromBits(b: seq<bool>): nat {
    if b == [] then 0 else Bit(b[0]) + 2 * FromBits(b[1..])
  }

  function Pow2(k: nat): (p: nat)
    ensures p >= 1
    decreases k
  {
    if k == 0 then 1 else 2 * Pow2(k - 1)
  }

  lemma {:induction false} FromBitsBound(b: seq<bool>)
    ensures FromBits(b) < Pow2(|b|)
  {
    if b != [] {
      FromBitsBound(b[1..]);
    }
  }

  lemma {:induction false} ToBitsOfFromBits(b: seq<bool>)
    ensures ToBits(FromBits(b), |b|) == b
  {
    if b != [] {
      ToBitsOfFromBits(b[1..]);
      assert FromBits(b) / 2 == FromBits(b[1..]);
      assert b == [b[0]] + b[1..];
    }
  }

  function Zeros(n: nat): (z: seq<bool>)
    ensures |z| == n && forall i :: 0 <= i < n ==> !z[i]
  {
    seq(n, i => false)
  }

  /** Extra high bits are zero. */
  lemma {:induction false} ToBitsWider(n: nat, k: nat, m: nat)
    requires n < Pow2(k)
    ensures ToBits(n, k + m) == ToBits(n, k) + Zeros(m)
    decreases k
  {
    if k == 0 {
      ToBitsOfZero(m);
      assert ToBits(n, k) + Zeros(m) == Zeros(m);
    } else {
      ToBitsWider(n / 2, k - 1, m);
      assert ToBits(n, k) + Zeros(m) == [n % 2 == 1] + (ToBits(n / 2, k - 1) + Zeros(m));
    }
  }

  lemma {:induction false} ToBitsOfZero(m: nat)
    ensures ToBits(0, m) == Zeros(m)
    decreases m
  {
    if m > 0 {
      ToBitsOfZero(m - 1);
      assert Zeros(m) == [false] + Zeros(m - 1);
    }
  }
}
