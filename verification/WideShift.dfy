/** Shifting a number held in two halves: what crosses from one half to the other. */
module WideShift {
  import opened Arith
  import opened Bits
  import opened Words

  /** The number of two halves. */
  function Join(hi: nat, lo: nat): nat {
    hi * W + lo
  }

  /** x * p, divided at q: what is pushed out of a word and what stays in it. */
  lemma Scaled(x: nat, p: nat, q: nat)
    requires p >= 1 && q >= 1
    ensures x * p == (x / q) * (p * q) + (x % q) * p && 0 <= (x % q) * p && (x % q) * p + p <= p * q
  {
    DivFacts(x, q);
    var a, r := x / q, x % q;
    MulStep(r, q, p);
    assert (a * q + r) * p == a * (p * q) + r * p;
  }

  lemma ScaledMod(x: nat, p: nat, q: nat)
    requires p >= 1 && q >= 1 && p * q == W
    ensures x * p % W == (x % q) * p
  {
    Scaled(x, p, q);
    DivIs(x * p, W, x / q, (x % q) * p);
  }

  /** x < p * q leaves a quotient by q below p. */
  lemma QuotientBelow(x: nat, p: nat, q: nat)
    requires p >= 1 && q >= 1 && x < p * q
    ensures 0 <= x / q < p
  {
    DivFacts(x, q);
    MulMono(p, x / q, q);
    DivLower(x, q, 0);
  }

  /** A half shifted left, with what the other half pushes out. */
  lemma LeftJoin(hi: nat, lo: nat, p: nat, q: nat)
    requires p >= 1 && q >= 1 && p * q == W && hi < W && lo < W
    ensures 0 <= lo / q < p && (hi % q) * p + lo / q < W
    ensures ((hi % q) * p + lo / q) * W + (lo % q) * p == Join(hi, lo) * p % W2
  {
    QuotientBelow(lo, p, q);
    Scaled(hi, p, q);
    Scaled(lo, p, q);
    var a, b, c, d := hi / q, (hi % q) * p, lo / q, (lo % q) * p;
    assert Join(hi, lo) * p == (hi * p) * W + lo * p;
    LeftSum(Join(hi, lo) * p, a, b, c, d);
  }

  lemma LeftSum(x: int, a: int, b: int, c: int, d: int)
    requires x == (a * W + b) * W + (c * W + d) && 0 <= b + c < W && 0 <= d < W
    ensures x % W2 == (b + c) * W + d
  {
    DivIs(x, W2, a, (b + c) * W + d);
  }

  lemma RightJoin(hi: nat, lo: nat, p: nat, q: nat)
    requires p >= 1 && q >= 1 && p * q == W && hi < W && lo < W
    ensures 0 <= lo / p < q && (hi % p) * q + lo / p < W && 0 <= hi / p < W
    ensures (hi / p) * W + ((hi % p) * q + lo / p) == Join(hi, lo) / p
  {
    assert q * p == W;
    QuotientBelow(lo, q, p);
    DivAtMost(hi, p);
    DivFacts(hi, p);
    DivFacts(lo, p);
    var a, b, c, d := hi / p, hi % p, lo / p, lo % p;
    MulStep(b, p, q);
    RightSum(a, b, c, d, p, q);
    DivIs(Join(hi, lo), p, a * W + (b * q + c), d);
  }

  lemma RightSum(a: int, b: int, c: int, d: int, p: int, q: int)
    requires p * q == W
    ensures (a * p + b) * W + (c * p + d) == (a * W + (b * q + c)) * p + d
  {
    assert (a * W + (b * q + c)) * p == (a * p) * W + b * (p * q) + c * p;
  }

  // ---------------------------------------------------------------- as the source writes them

  const MAX: Word := 0xFFFF_FFFF_FFFF_FFFF

  /** The n high bits of a word, moved to the bottom: `(lo & ~(-1 >> n)) >> (64 - n)`. */
  function TopBits(lo: Word, n: nat): nat
    requires 0 < n < 64
  {
    Shr(And(lo, Not(Shr(MAX, n))), 64 - n)
  }

  /** The n low bits of a word, moved to the top: `(hi & ~(-1 << n)) << (64 - n)`. */
  function BottomBits(hi: Word, n: nat): nat
    requires 0 < n < 64
  {
    Shl(And(hi, Not(Shl(MAX, n))), 64 - n)
  }

  lemma Complement(n: nat)
    requires 0 < n < 64
    ensures Pow2(n) * Pow2(64 - n) == W
    ensures Not(Shr(MAX, n)) == W - Pow2(64 - n)
    ensures Not(Shl(MAX, n)) == Pow2(n) - 1
  {
    Pow2Add(n, 64 - n);
    Pow2Values();
    hide Pow2;
    MaxShifted(Pow2(n), Pow2(64 - n));
  }

  lemma MaxShifted(p: nat, q: nat)
    requires p >= 1 && q >= 1 && p * q == W
    ensures (W - 1) / p == q - 1 && (W - 1) * p % W == W - p
  {
    assert (q - 1) * p == p * q - p;
    DivIs(W - 1, p, q - 1, p - 1);
    MulMono(1, q, p);
    DivIs((W - 1) * p, W, p - 1, W - p);
  }

  lemma TopBitsAre(lo: Word, n: nat)
    requires 0 < n < 64
    ensures TopBits(lo, n) == lo / Pow2(64 - n)
  {
    Complement(n);
    Pow2Values();
    var q := Pow2(64 - n);
    AndHighMask(lo, 64 - n, 64);
    hide And, Pow2;
    DivFacts(lo, q);
    DivIs(lo - lo % q, q, lo / q, 0);
  }

  lemma BottomBitsAre(hi: Word, n: nat)
    requires 0 < n < 64
    ensures BottomBits(hi, n) == (hi % Pow2(n)) * Pow2(64 - n)
  {
    Complement(n);
    AndLowMask(hi, n);
    MovedUp(hi, Pow2(n), Pow2(64 - n));
    hide And, Pow2;
  }

  lemma MovedUp(x: nat, p: nat, q: nat)
    requires p >= 1 && q >= 1 && p * q == W
    ensures (x % p) * q % W == (x % p) * q
  {
    DivFacts(x, p);
    MulStep(x % p, p, q);
    MulMono(0, x % p, q);
    DivIs((x % p) * q, W, 0, (x % p) * q);
  }

  /** Left shift of both halves by less than a half. */
  lemma ShiftLeft(hi: Word, lo: Word, n: nat)
    requires 0 < n < 64
    ensures Or(Shl(hi, n), TopBits(lo, n)) < W
    ensures Join(Or(Shl(hi, n), TopBits(lo, n)), Shl(lo, n)) == Join(hi, lo) * Pow2(n) % W2
  {
    Complement(n);
    TopBitsAre(lo, n);
    hide And, Or, Pow2, TopBits;
    var p, q := Pow2(n), Pow2(64 - n);
    ScaledMod(hi, p, q);
    ScaledMod(lo, p, q);
    LeftJoin(hi, lo, p, q);
    assert LowBits((hi % q) * p, n) == 0 by {
      DivIs((hi % q) * p, p, hi % q, 0);
    }
    OrIsSum((hi % q) * p, lo / q, n);
  }

  lemma ShiftRight(hi: Word, lo: Word, n: nat)
    requires 0 < n < 64
    ensures Or(BottomBits(hi, n), Shr(lo, n)) < W
    ensures Or(Shr(lo, n), BottomBits(hi, n)) == Or(BottomBits(hi, n), Shr(lo, n))
    ensures Join(Shr(hi, n), Or(Shr(lo, n), BottomBits(hi, n))) == Join(hi, lo) / Pow2(n)
  {
    Complement(n);
    BottomBitsAre(hi, n);
    OrCommutes(Shr(lo, n), BottomBits(hi, n));
    hide And, Or, Pow2, BottomBits;
    var p, q := Pow2(n), Pow2(64 - n);
    RightJoin(hi, lo, p, q);
    assert LowBits((hi % p) * q, 64 - n) == 0 by {
      DivIs((hi % p) * q, q, hi % p, 0);
    }
    OrIsSum((hi % p) * q, lo / p, 64 - n);
  }
}
