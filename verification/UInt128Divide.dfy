/** Shift-and-subtract division. */
module UInt128Divide {
  import opened Arith
  import opened Bits
  import opened Words
  import opened UInt128

  /**
    k bits of the quotient are still to be found: what has been found, times the divisor, and what
    is left of the dividend make up the dividend.
   */
  ghost predicate Narrowed(num: nat, den: nat, answer: nat, n: nat, k: nat) {
    num == answer * den + n && n < den * Pow2(k) && LowBits(answer, k) == 0
  }

  /** The bit under trial and the divisor shifted to it. */
  ghost predicate OnTrial(den: nat, x: nat, d: nat, k: nat) {
    if k == 0 then x == 0 else x == Pow2(k - 1) && d == den * Pow2(k - 1)
  }

  lemma LowBitsOfHalf(answer: nat, k: nat)
    requires k > 0 && LowBits(answer, k) == 0
    ensures LowBits(answer, k - 1) == 0 && LowBits(answer + Pow2(k - 1), k - 1) == 0
  {
    var p := Pow2(k - 1);
    Pow2Step(k);
    hide Pow2;
    DivFacts(answer, 2 * p);
    var q := answer / (2 * p);
    assert q * (2 * p) == (2 * q) * p;
    DivIs(answer, p, 2 * q, 0);
    assert (2 * q + 1) * p == 2 * q * p + p;
    DivIs(answer + p, p, 2 * q + 1, 0);
  }

  /** One bit decided. */
  lemma OneBit(num: nat, den: nat, answer: nat, n: nat, x: nat, d: nat, k: nat)
    requires k > 0 && Narrowed(num, den, answer, n, k) && OnTrial(den, x, d, k)
    ensures n >= d ==> Narrowed(num, den, answer + x, n - d, k - 1) && Or(answer, x) == answer + x
    ensures n < d ==> Narrowed(num, den, answer, n, k - 1)
    ensures OnTrial(den, x / 2, d / 2, k - 1)
  {
    LowBitsOfHalf(answer, k);
    OrIsSum(answer, x, k);
    Pow2Step(k);
    if k > 1 {
      DoubledPower(den, k - 2);
    }
    hide Pow2, Or, LowBits;
    TakeBit(num, den, answer, n, Pow2(k - 1));
  }

  lemma TakeBit(num: nat, den: nat, answer: nat, n: nat, p: nat)
    requires num == answer * den + n && n < den * (2 * p)
    ensures n - den * p < den * p && num == (answer + p) * den + (n - den * p)
  {
    assert den * (2 * p) == 2 * (den * p);
    assert (answer + p) * den == answer * den + den * p;
  }

  lemma AllBits(num: nat, den: nat, answer: nat, n: nat)
    requires den > 0 && Narrowed(num, den, answer, n, 0)
    ensures answer == num / den && n == num % den
  {
    assert n < den * 1;
    DivIs(num, den, answer, n);
  }

  method TopBitIsClear(d: U128) returns (r: bool)
    ensures r <==> d.Value() < Pow2(127)
  {
    Pow2Step(128);
    Pow2Values();
    hide Pow2;
    var t := new U128(d.hi, d.lo);
    var by127 := new U128(0, 127);
    ghost var v, p := d.Value(), Pow2(127);
    t.ShrAssign(by127);
    DivFacts(v, p);
    DivLower(v, p, 0);
    DivUpper(v, p, 1);
    TopBitOf(v, p);
    assert t.lo < 2;
    OneBitMask(t.lo);
    hide And;
    return t.hi == 0 && And(t.lo, 1) == 0;
  }

  lemma TopBitOf(v: nat, p: nat)
    requires p >= 1 && v < 2 * p
    ensures v / p == if v < p then 0 else 1
  {
    if v < p {
      DivIs(v, p, 0, v);
    } else {
      DivIs(v, p, 1, v - p);
    }
  }

  lemma OneBitMask(b: nat)
    requires b < 2
    ensures And(b, 1) == b
  {
  }

  /** `v <<= 1` and `v >>= 1`. */
  method Double(v: U128)
    modifies v
    ensures v.Value() == Wrap(old(v.Value()) * 2)
  {
    Pow2Values();
    hide Pow2;
    var one := new U128(0, 1);
    v.ShlAssign(one);
  }

  method Halve(v: U128)
    modifies v
    ensures v.Value() == old(v.Value()) / 2
  {
    Pow2Values();
    hide Pow2;
    var one := new U128(0, 1);
    v.ShrAssign(one);
  }

  lemma DoubledPower(den: nat, k: nat)
    ensures Pow2(k + 1) == 2 * Pow2(k) && den * Pow2(k + 1) == 2 * (den * Pow2(k))
  {
    Pow2Step(k + 1);
    hide Pow2;
    assert den * (2 * Pow2(k)) == 2 * (den * Pow2(k));
  }

  /** Shifts the divisor up until it passes the dividend or reaches the top bit. */
  method Align(n: U128, d: U128, x: U128) returns (ghost k: nat)
    requires n != d && n != x && d != x && d.Value() > 0 && x.Value() == 1
    modifies d, x
    ensures k > 0 && OnTrial(old(d.Value()), x.Value(), d.Value(), k)
    ensures n.Value() < old(d.Value()) * Pow2(k)
  {
    ghost var den := d.Value();
    k := 1;
    FirstTrial(den);
    hide *;
    var clear := TopBitIsClear(d);
    while n.AtLeast(d) && clear
      invariant k > 0 && OnTrial(den, x.Value(), d.Value(), k) && x.Value() <= d.Value()
      invariant clear <==> d.Value() < Pow2(127)
      invariant n.Value() == old(n.Value()) && d.Value() > 0
      decreases n.Value() - d.Value()
    {
      Shifted(den, x.Value(), d.Value(), k);
      Double(x);
      Double(d);
      k := k + 1;
      clear := TopBitIsClear(d);
    }
    Aligned(den, x.Value(), d.Value(), k);
  }

  lemma FirstTrial(den: nat)
    ensures OnTrial(den, 1, den, 1)
  {
    assert Pow2(0) == 1 && den * 1 == den;
  }

  lemma Shifted(den: nat, x: nat, d: nat, k: nat)
    requires k > 0 && OnTrial(den, x, d, k) && x <= d < Pow2(127)
    ensures OnTrial(den, x * 2, d * 2, k + 1)
    ensures Wrap(x * 2) == x * 2 && Wrap(d * 2) == d * 2
  {
    Pow2Step(128);
    Pow2Values();
    DoubledPower(den, k - 1);
    hide Pow2;
    WrapsOnce(x * 2);
    WrapsOnce(d * 2);
  }

  /** Once it has passed the dividend or reached the top bit, twice the divisor exceeds every number. */
  lemma Aligned(den: nat, x: nat, d: nat, k: nat)
    requires k > 0 && OnTrial(den, x, d, k)
    ensures den * Pow2(k) == 2 * d
    ensures d >= Pow2(127) ==> 2 * d >= W2
  {
    Pow2Step(128);
    Pow2Values();
    DoubledPower(den, k - 1);
    hide Pow2;
  }

  /**
    Quotient and remainder for every divisor but zero. The results may be the operands themselves,
    which are copied before anything is written.
   */
  method Divide(numerator: U128, denominator: U128, quotient: U128, remainder: U128) returns (ok: bool)
    requires quotient != remainder
    modifies quotient, remainder
    ensures ok <==> old(denominator.Value()) != 0
    ensures !ok ==> unchanged(quotient) && unchanged(remainder)
    ensures ok ==> quotient.Value() == old(numerator.Value()) / old(denominator.Value())
    ensures ok ==> remainder.Value() == old(numerator.Value()) % old(denominator.Value())
  {
    if denominator.IsZero() {
      return false;
    }
    ghost var num, den := numerator.Value(), denominator.Value();
    var n := new U128(numerator.hi, numerator.lo);
    var d := new U128(denominator.hi, denominator.lo);
    var x := new U128(0, 1);
    var answer := new U128(0, 0);
    ghost var k := Align(n, d, x);
    Begins(num, den, k);
    hide *;
    Subtract(n, d, x, answer, num, den, k);
    quotient.Set(answer);
    remainder.Set(n);
    return true;
  }

  /** Decides the bits of the quotient from the top. */
  method Subtract(n: U128, d: U128, x: U128, answer: U128, ghost num: nat, ghost den: nat, ghost bits: nat)
    requires n != d && n != x && n != answer && d != x && d != answer && x != answer
    requires den > 0 && OnTrial(den, x.Value(), d.Value(), bits)
    requires Narrowed(num, den, answer.Value(), n.Value(), bits)
    modifies n, d, x, answer
    ensures answer.Value() == num / den && n.Value() == num % den
  {
    hide *;
    ghost var k := bits;
    while !x.IsZero()
      invariant OnTrial(den, x.Value(), d.Value(), k) && Narrowed(num, den, answer.Value(), n.Value(), k)
      decreases k
    {
      MoreBits(den, x.Value(), d.Value(), k);
      OneBit(num, den, answer.Value(), n.Value(), x.Value(), d.Value(), k);
      if n.AtLeast(d) {
        WrapsOnce(n.Value() - d.Value());
        n.SubAssign(d);
        answer.OrAssign(x);
      }
      Halve(x);
      Halve(d);
      k := k - 1;
    }
    NoMoreBits(den, x.Value(), d.Value(), k);
    AllBits(num, den, answer.Value(), n.Value());
  }

  lemma Begins(num: nat, den: nat, k: nat)
    requires num < den * Pow2(k)
    ensures Narrowed(num, den, 0, num, k)
  {
    assert 0 * den == 0;
  }

  lemma MoreBits(den: nat, x: nat, d: nat, k: nat)
    requires OnTrial(den, x, d, k) && x != 0
    ensures k > 0
  {
  }

  lemma NoMoreBits(den: nat, x: nat, d: nat, k: nat)
    requires OnTrial(den, x, d, k) && x == 0
    ensures k == 0
  {
  }

  /** `a %= b`; the two may be one. */
  method ModAssign(a: U128, b: U128) returns (ok: bool)
    modifies a
    ensures ok <==> old(b.Value()) != 0
    ensures a.Value() == if ok then old(a.Value()) % old(b.Value()) else old(a.Value())
  {
    var quotient := new U128(0, 0);
    ok := Divide(a, b, quotient, a);
  }
}
