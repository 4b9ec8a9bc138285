/** Unsigned machine words as integers, with the bitwise operations that the carries rest on. */
module Words {
  import opened Arith
  import opened Bits

  const W: nat := 0x1_0000_0000_0000_0000
  const W2: nat := 0x1_0000_0000_0000_0000_0000_0000_0000_0000

  type Word = x: int | 0 <= x < 0x1_0000_0000_0000_0000

  function Or(a: nat, b: nat): nat
    decreases a + b
  {
    if a == 0 && b == 0 then 0
    else 2 * Or(a / 2, b / 2) + (if a % 2 == 1 || b % 2 == 1 then 1 else 0)
  }

  function And(a: nat, b: nat): nat
    decreases a
  {
    if a == 0 then 0
    else 2 * And(a / 2, b / 2) + (if a % 2 == 1 && b % 2 == 1 then 1 else 0)
  }

  function Xor(a: nat, b: nat): nat
    decreases a + b
  {
    if a == 0 && b == 0 then 0
    else 2 * Xor(a / 2, b / 2) + (if a % 2 != b % 2 then 1 else 0)
  }

  function Not(a: Word): Word {
    W - 1 - a
  }

  /** `a << n` and `a >> n` on 64-bit words. */
  function Shl(a: nat, n: nat): Word {
    a * Pow2(n) % W
  }

  function Shr(a: nat, n: nat): (r: nat)
    ensures r <= a
  {
    DivAtMost(a, Pow2(n));
    a / Pow2(n)
  }

  /** The k low bits. */
  function LowBits(a: nat, k: nat): nat {
    a % Pow2(k)
  }

  lemma {:induction false} Pow2Add(a: nat, b: nat)
    ensures Pow2(a + b) == Pow2(a) * Pow2(b)
    decreases a
  {
    if a > 0 {
      Pow2Add(a - 1, b);
      assert 2 * (Pow2(a - 1) * Pow2(b)) == 2 * Pow2(a - 1) * Pow2(b);
    }
  }

  lemma Pow2Values()
    ensures Pow2(1) == 2 && Pow2(32) == 0x1_0000_0000 && Pow2(64) == W && Pow2(128) == W2
  {
    Pow2Doubles(4, 16, 8);
    Pow2Doubles(8, 0x100, 16);
    Pow2Doubles(16, 0x1_0000, 32);
    Pow2Doubles(32, 0x1_0000_0000, 64);
    Pow2Doubles(64, W, 128);
  }

  lemma Pow2Doubles(k: nat, v: nat, m: nat)
    requires Pow2(k) == v && m == k + k
    ensures Pow2(m) == v * v
  {
    Pow2Add(k, k);
  }

  /** Where the bits do not meet, "or" is addition. */
  lemma {:induction false} OrIsSum(a: nat, b: nat, k: nat)
    requires LowBits(a, k) == 0 && b < Pow2(k)
    ensures Or(a, b) == a + b
    decreases k, a
  {
    if a == 0 && b == 0 {
    } else if k == 0 {
      OrIsSum(a / 2, 0, 0);
    } else {
      hide LowBits;
      ModHalf(a, k);
      OrIsSum(a / 2, b / 2, k - 1);
    }
  }

  lemma OrOfMultiple(a: nat, b: nat, i: nat)
    requires b < Pow2(i)
    ensures Or(a * Pow2(i), b) == a * Pow2(i) + b
  {
    DivIs(a * Pow2(i), Pow2(i), a, 0);
    OrIsSum(a * Pow2(i), b, i);
  }

  /** "Or" works on each part of a number by itself. */
  lemma {:induction false} OrOfParts(a1: nat, a0: nat, b1: nat, b0: nat, k: nat)
    requires a0 < Pow2(k) && b0 < Pow2(k)
    ensures Or(a1 * Pow2(k) + a0, b1 * Pow2(k) + b0) == Or(a1, b1) * Pow2(k) + Or(a0, b0)
    decreases k
  {
    hide Or, Pow2;
    if k == 0 {
      OrOfWholes(a1, a0, b1, b0);
    } else {
      var p := Pow2(k - 1);
      Pow2Step(k);
      OrOfParts(a1, a0 / 2, b1, b0 / 2, k - 1);
      HalfOfParts(a1, a0, p);
      HalfOfParts(b1, b0, p);
      HalfOfParts(Or(a1, b1), 0, p);
      OrStep(a1 * (2 * p) + a0, b1 * (2 * p) + b0);
      OrStep(a0, b0);
    }
  }

  lemma OrOfWholes(a1: nat, a0: nat, b1: nat, b0: nat)
    requires a0 < Pow2(0) && b0 < Pow2(0)
    ensures Or(a1 * Pow2(0) + a0, b1 * Pow2(0) + b0) == Or(a1, b1) * Pow2(0) + Or(a0, b0)
  {
    assert Pow2(0) == 1 && Or(0, 0) == 0;
    hide Or, Pow2;
  }

  lemma HalfOfParts(a1: nat, a0: nat, p: nat)
    ensures (a1 * (2 * p) + a0) / 2 == a1 * p + a0 / 2 && (a1 * (2 * p) + a0) % 2 == a0 % 2
    ensures a1 * (2 * p) == 2 * (a1 * p)
  {
    assert a1 * (2 * p) == 2 * (a1 * p);
  }

  lemma {:induction false} OrCommutes(a: nat, b: nat)
    ensures Or(a, b) == Or(b, a)
    decreases a + b
  {
    if a != 0 || b != 0 {
      OrCommutes(a / 2, b / 2);
    }
  }

  lemma OrStep(a: nat, b: nat)
    ensures Or(a, b) == 2 * Or(a / 2, b / 2) + (if a % 2 == 1 || b % 2 == 1 then 1 else 0)
  {
  }

  lemma {:induction false} OrBound(a: nat, b: nat, k: nat)
    requires a < Pow2(k) && b < Pow2(k)
    ensures Or(a, b) < Pow2(k)
    decreases k
  {
    if k > 0 {
      OrBound(a / 2, b / 2, k - 1);
    }
  }

  /** The remainder by a power of two, one bit at a time. */
  lemma ModHalf(a: nat, k: nat)
    requires k > 0
    ensures LowBits(a, k) == 2 * LowBits(a / 2, k - 1) + a % 2
  {
    var p := Pow2(k - 1);
    DivFacts(a / 2, p);
    var q, r := a / 2 / p, a / 2 % p;
    assert a == 2 * (q * p + r) + a % 2;
    assert 2 * (q * p) == q * (2 * p);
    DivIs(a, 2 * p, q, 2 * r + a % 2);
  }

  lemma AndStep(a: nat, b: nat)
    ensures And(a, b) == 2 * And(a / 2, b / 2) + (if a % 2 == 1 && b % 2 == 1 then 1 else 0)
  {
  }

  lemma Pow2Step(n: nat)
    requires n > 0
    ensures Pow2(n) == 2 * Pow2(n - 1)
  {
  }

  lemma {:induction false} AndZero(a: nat)
    ensures And(a, 0) == 0
  {
    if a > 0 {
      AndZero(a / 2);
    }
  }

  lemma {:induction false} AndLowMask(a: nat, n: nat)
    ensures And(a, Pow2(n) - 1) == LowBits(a, n)
    decreases n
  {
    if n == 0 {
      assert Pow2(0) == 1 && LowBits(a, 0) == 0;
      hide And, Pow2, LowBits;
      AndZero(a);
    } else {
      hide And, Pow2, LowBits;
      Pow2Step(n);
      ModHalf(a, n);
      var p := Pow2(n - 1);
      assert (2 * p - 1) / 2 == p - 1 && (2 * p - 1) % 2 == 1;
      AndStep(a, 2 * p - 1);
      AndLowMask(a / 2, n - 1);
    }
  }

  lemma AndWholeMask(a: nat, w: nat)
    requires a < Pow2(w)
    ensures Pow2(0) == 1 && And(a, Pow2(w) - 1) == a - LowBits(a, 0)
  {
    AndLowMask(a, w);
    DivIs(a, Pow2(w), 0, a);
    hide And;
  }

  lemma {:induction false} AndHighMask(a: nat, k: nat, w: nat)
    requires k <= w && a < Pow2(w)
    ensures Pow2(k) <= Pow2(w) && And(a, Pow2(w) - Pow2(k)) == a - LowBits(a, k)
    decreases k
  {
    hide And, Pow2, LowBits;
    if k == 0 {
      AndWholeMask(a, w);
    } else {
      Pow2Step(k);
      Pow2Step(w);
      ModHalf(a, k);
      AndHighMask(a / 2, k - 1, w - 1);
      var mask := Pow2(w - 1) - Pow2(k - 1);
      assert 2 * mask / 2 == mask && 2 * mask % 2 == 0;
      AndStep(a, 2 * mask);
    }
  }

  /** Flipping the top bit, which was set, removes it. */
  lemma {:induction false} XorTopBit(m: nat, k: nat)
    requires m < Pow2(k)
    ensures Xor(m + Pow2(k), Pow2(k)) == m
    decreases k
  {
    if k == 0 {
      assert Xor(1, 1) == 0;
    } else {
      XorTopBit(m / 2, k - 1);
      var p := Pow2(k - 1);
      assert (m + 2 * p) / 2 == m / 2 + p && (m + 2 * p) % 2 == m % 2;
    }
  }

  lemma XorStep(a: nat, b: nat)
    ensures Xor(a, b) == 2 * Xor(a / 2, b / 2) + (if a % 2 != b % 2 then 1 else 0)
  {
  }

  /** Adding a mask twice gives back the number. */
  lemma {:induction false} XorCancels(a: nat, b: nat)
    ensures Xor(Xor(a, b), b) == a
    decreases a + b
  {
    if a == 0 && b == 0 {
      assert Xor(0, 0) == 0;
    } else {
      XorStep(a, b);
      XorStep(Xor(a, b), b);
      XorCancels(a / 2, b / 2);
    }
  }

  lemma {:induction false} XorBound(a: nat, b: nat, k: nat)
    requires a < Pow2(k) && b < Pow2(k)
    ensures Xor(a, b) < Pow2(k)
    decreases k
  {
    if k > 0 {
      XorBound(a / 2, b / 2, k - 1);
    }
  }
}
