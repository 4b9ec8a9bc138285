/** A 256-bit hash as a 32-bit logarithm: 8 bits of exponent, 24 bits of fraction. */
module ApproxLog {
  import opened Arith
  import opened Bits
  import opened Words

  const ONE: nat := 0x100_0000

  function Log2(v: nat): nat
    requires v >= 1
  {
    if v < 2 then 0 else 1 + Log2(v / 2)
  }

  lemma {:induction false} Log2Bounds(v: nat)
    requires v >= 1
    ensures Pow2(Log2(v)) <= v < 2 * Pow2(Log2(v))
  {
    if v >= 2 {
      Log2Bounds(v / 2);
    }
  }

  lemma {:induction false} Log2Is(v: nat, k: nat)
    requires Pow2(k) <= v < 2 * Pow2(k)
    ensures v >= 1 && Log2(v) == k
    decreases k
  {
    if k > 0 {
      Log2Is(v / 2, k - 1);
    }
  }

  /** The top 25 bits of v, or v shifted up to 25 bits. */
  function Mantissa(v: nat, l: nat): nat {
    DivLower(v * ONE, Pow2(l), 0);
    v * ONE / Pow2(l)
  }

  /** The approximate logarithm of a number. */
  function LogOf(v: nat): int {
    if v == 0 then 0 else Log2(v) * ONE + (Mantissa(v, Log2(v)) - ONE)
  }

  lemma MantissaBounds(v: nat, p: nat)
    requires p >= 1 && p <= v < 2 * p
    ensures ONE <= v * ONE / p < 2 * ONE
  {
    MulMono(p, v, ONE);
    DivLower(v * ONE, p, ONE);
    MulStep(v, 2 * p, ONE);
    assert 2 * p * ONE == (2 * ONE) * p;
    assert (2 * ONE - 1) * p + p == (2 * ONE) * p;
    DivUpper(v * ONE, p, 2 * ONE - 1);
  }

  lemma MantissaOf(v: nat)
    requires v >= 1
    ensures ONE <= Mantissa(v, Log2(v)) < 2 * ONE
  {
    Log2Bounds(v);
    hide Pow2, Log2;
    MantissaBounds(v, Pow2(Log2(v)));
  }

  /** The exponent in steps of 2^24, and the fraction of the way to the next power of two, cut off. */
  lemma LogIs(v: nat, k: nat)
    requires Pow2(k) <= v < 2 * Pow2(k)
    ensures LogOf(v) == k * 0x100_0000 + (v - Pow2(k)) * 0x100_0000 / Pow2(k)
  {
    Log2Is(v, k);
    hide Log2, Pow2;
    var p, x := Pow2(k), (v - Pow2(k)) * ONE;
    DivFacts(x, p);
    assert v * ONE == p * ONE + x == (ONE + x / p) * p + x % p;
    DivIs(v * ONE, p, ONE + x / p, x % p);
  }

  lemma {:induction false} Pow2Mono(a: nat, b: nat)
    requires a <= b
    ensures Pow2(a) <= Pow2(b)
    decreases b
  {
    if a < b {
      Pow2Mono(a, b - 1);
    }
  }

  lemma DivMono(x: nat, y: nat, p: nat)
    requires p >= 1 && x <= y
    ensures x / p <= y / p
  {
    DivFacts(x, p);
    DivLower(y, p, x / p);
  }

  /** A larger hash never has a smaller logarithm. */
  lemma LogIsMonotone(v: nat, w: nat)
    requires v <= w
    ensures LogOf(v) <= LogOf(w)
  {
    if w != 0 {
      MantissaOf(w);
    }
    if v != 0 {
      var a, b := Log2(v), Log2(w);
      MantissaOf(v);
      Log2Bounds(v);
      Log2Bounds(w);
      if a > b {
        Pow2Mono(b + 1, a);
        assert Pow2(b + 1) == 2 * Pow2(b);
        assert false;
      } else if a == b {
        MulMono(v, w, ONE);
        hide Log2, Pow2;
        DivMono(v * ONE, w * ONE, Pow2(a));
      }
    }
  }

  // ---------------------------------------------------------------- the inverse

  /** The hash that a logarithm is turned back into. */
  function InverseOf(x: nat): nat {
    if x / ONE == 0 then 0 else (ONE + x % ONE) * Pow2(x / ONE) / ONE
  }

  lemma OnePower(k: nat)
    requires k <= 24
    ensures ONE == Pow2(k) * Pow2(24 - k)
  {
    Pow2Add(k, 24 - k);
    OneIsPow2();
  }

  lemma OneIsPow2()
    ensures Pow2(24) == ONE
  {
    assert Pow2(12) == 0x1000;
    Pow2Add(12, 12);
  }

  /** (b * p * q) / (p * q) and the like, for exponents of 24 and more. */
  lemma LargeInverse(b: nat, p: nat)
    requires p >= 1
    ensures b * (ONE * p) / ONE == b * p
    ensures b * p * ONE / (ONE * p) == b
  {
    assert b * (ONE * p) == (b * p) * ONE;
    DivIs(b * (ONE * p), ONE, b * p, 0);
    assert b * p * ONE == b * (ONE * p);
    MulMono(1, p, ONE);
    DivIs(b * p * ONE, ONE * p, b, 0);
  }

  lemma SmallInverse(b: nat, e: nat, p: nat)
    requires e >= 1 && p >= 1 && ONE == e * p
    ensures b * e / ONE == b / p
    ensures (b / p) * ONE / e == b - b % p
  {
    DivFacts(b, p);
    var q, r := b / p, b % p;
    assert b * e == q * (e * p) + r * e by {
      assert (q * p + r) * e == q * (e * p) + r * e;
    }
    MulStep(r, p, e);
    MulMono(0, r, e);
    DivIs(b * e, ONE, q, r * e);
    assert q * ONE == (q * p) * e;
    DivIs(q * ONE, e, q * p, 0);
  }

  /** One divides what the other divides: the fraction bits that are lost are low bits of x. */
  lemma LowBitsOfSum(x: nat, p: nat, e: nat)
    requires e >= 1 && p >= 1 && ONE == e * p
    ensures (ONE + x % ONE) % p == x % p
  {
    var k := x / ONE;
    assert ONE + x % ONE == x + (1 - k) * ONE;
    assert (1 - k) * ONE == ((1 - k) * e) * p;
    ModAddMultiple((1 - k) * e, p, x);
  }

  lemma InverseHasExponent(x: nat)
    requires x / ONE > 0
    ensures var v, nz := InverseOf(x), x / ONE; Pow2(nz) <= v < 2 * Pow2(nz)
  {
    var nz, b := x / ONE, ONE + x % ONE;
    var p := Pow2(nz);
    hide Pow2;
    MulMono(ONE, b, p);
    DivLower(b * p, ONE, p);
    MulStep(b, 2 * ONE, p);
    assert 2 * ONE * p == (2 * p) * ONE;
    DivUpper(b * p, ONE, 2 * p - 1);
  }

  /** What is kept of x: all of it from exponent 24 on, below that all but the lowest bits. */
  function Kept(x: nat): int {
    if x / ONE >= 24 then x else x - x % Pow2(24 - x / ONE)
  }

  /** The logarithm of the inverse, for every x. */
  lemma LogOfInverse(x: nat)
    ensures LogOf(InverseOf(x)) == Kept(x)
  {
    var nz, b := x / ONE, ONE + x % ONE;
    if nz == 0 {
      OnePower(0);
      DivIs(x, ONE, 0, x);
      assert Pow2(0) == 1;
    } else {
      InverseHasExponent(x);
      Log2Is(InverseOf(x), nz);
      if nz >= 24 {
        hide Log2, Pow2;
        LargeExponent(x);
      } else {
        hide Log2, Pow2;
        SmallExponent(x);
      }
    }
  }

  lemma LargeExponent(x: nat)
    requires x / ONE >= 24
    ensures Mantissa(InverseOf(x), x / ONE) == ONE + x % ONE
  {
    var nz := x / ONE;
    OneIsPow2();
    Pow2Add(24, nz - 24);
    hide Pow2;
    LargeInverse(ONE + x % ONE, Pow2(nz - 24));
  }

  lemma SmallExponent(x: nat)
    requires 0 < x / ONE < 24
    ensures Mantissa(InverseOf(x), x / ONE) == ONE + x % ONE - x % Pow2(24 - x / ONE)
  {
    var nz := x / ONE;
    OnePower(nz);
    hide Pow2;
    SmallInverse(ONE + x % ONE, Pow2(nz), Pow2(24 - nz));
    LowBitsOfSum(x, Pow2(24 - nz), Pow2(nz));
  }

  /** The round trip is exact if and only if no bit of the fraction is shifted out. */
  lemma LogOfInverseIsExactIff(x: nat)
    ensures LogOf(InverseOf(x)) == x <==> (x / ONE >= 24 || x % Pow2(24 - x / ONE) == 0)
  {
    hide Pow2, LogOf, InverseOf;
    LogOfInverse(x);
  }

  /** The other way round, a hash keeps its top 25 bits; only the hash 1 is lost altogether. */
  lemma InverseOfLog(v: nat)
    ensures 0 <= LogOf(v)
    ensures InverseOf(LogOf(v)) ==
      if v < 2 then 0 else if Log2(v) <= 24 then v else v - v % Pow2(Log2(v) - 24)
  {
    if v >= 1 {
      MantissaOf(v);
      var l := Log2(v);
      var m := Mantissa(v, l);
      DivIs(LogOf(v), ONE, l, m - ONE);
      if v == 1 {
        assert Log2(1) == 0;
      } else {
        assert l >= 1;
        hide Log2, Mantissa;
        KeptOfHash(v, l);
      }
    }
  }

  lemma KeptOfHash(v: nat, l: nat)
    ensures Mantissa(v, l) * Pow2(l) / ONE == if l <= 24 then v else v - v % Pow2(l - 24)
  {
    if l <= 24 {
      OnePower(l);
      hide Pow2;
      SmallHash(v, Pow2(l), Pow2(24 - l));
    } else {
      OnePower(24);
      assert Pow2(0) == 1;
      Pow2Add(24, l - 24);
      hide Pow2;
      LargeHash(v, Pow2(l - 24));
    }
  }

  lemma SmallHash(v: nat, e: nat, p: nat)
    requires e >= 1 && ONE == e * p
    ensures v * ONE / e * e / ONE == v
  {
    assert v * ONE == (v * p) * e;
    DivIs(v * ONE, e, v * p, 0);
    DivIs(v * ONE, ONE, v, 0);
  }

  lemma LargeHash(v: nat, p: nat)
    requires p >= 1
    ensures ONE * p >= 1 && v * ONE / (ONE * p) * (ONE * p) / ONE == v - v % p
  {
    DivDivSwap(v, p);
    DivFacts(v, p);
    var q := v / p;
    assert q * (ONE * p) == (q * p) * ONE;
    DivIs(q * (ONE * p), ONE, q * p, 0);
  }

  lemma DivDivSwap(v: nat, p: nat)
    requires p >= 1
    ensures ONE * p >= 1 && v * ONE / (ONE * p) == v / p
  {
    DivIs(v * ONE, ONE, v, 0);
    DivDiv(v * ONE, ONE, p);
  }
}
