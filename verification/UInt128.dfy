/** 128-bit unsigned arithmetic on two 64-bit halves. */
module UInt128 {
  import opened Arith
  import opened Bits
  import opened Options
  import opened Words
  import opened WideShift

  const B: nat := 0x1_0000_0000

  // ---------------------------------------------------------------- arithmetic modulo 2^128

  /** Reduction modulo 2^128. */
  function Wrap(x: int): nat {
    x % W2
  }

  lemma WrapIs(x: int)
    ensures Wrap(x) == x % W2
  {
  }

  lemma WrapMultiple(x: int)
    ensures Wrap(W2 + x) == Wrap(x)
  {
  }

  lemma WrapsOnce(x: int)
    ensures 0 <= x < W2 ==> Wrap(x) == x
    ensures W2 <= x < 2 * W2 ==> Wrap(x) == x - W2
    ensures 0 <= x + W2 < W2 ==> Wrap(x) == x + W2
  {
  }

  lemma WordWrapsOnce(x: int)
    ensures 0 <= x < W ==> x % W == x
    ensures W <= x < 2 * W ==> x % W == x - W
  {
  }

  lemma WrapSum(x: int, y: int)
    ensures Wrap(Wrap(x) + y) == Wrap(x + y)
  {
    var k := x / W2;
    assert x == k * W2 + x % W2;
    ModAddMultiple(k, W2, x % W2 + y);
  }

  lemma WrapProduct(x: int, p: int)
    ensures Wrap(Wrap(x) * p) == Wrap(x * p)
  {
    var k := x / W2;
    assert x * p == (k * p) * W2 + (x % W2) * p by {
      assert (k * W2 + x % W2) * p == (k * p) * W2 + (x % W2) * p;
    }
    ModAddMultiple(k * p, W2, (x % W2) * p);
  }

  /** Adding the halves, with the carry found by comparison. */
  lemma AddHalves(hi: Word, lo: Word, uhi: Word, ulo: Word)
    ensures var sum := (lo + ulo) % W;
      var carry := if sum < lo then 1 else 0;
      Join((hi + (uhi + carry) % W) % W, sum) == Wrap(Join(hi, lo) + Join(uhi, ulo))
  {
    var sum := (lo + ulo) % W;
    WordWrapsOnce(lo + ulo);
    assert sum < lo <==> lo + ulo >= W;
    var carry := if sum < lo then 1 else 0;
    WordWrapsOnce(uhi + carry);
    WordWrapsOnce(hi + (uhi + carry) % W);
    WrapsOnce(Join(hi, lo) + Join(uhi, ulo));
    hide Wrap;
  }

  lemma ShiftLeftByHalf(hi: Word, lo: Word, m: nat)
    ensures Wrap(Join(lo, 0) * Pow2(m)) == Wrap(Join(hi, lo) * Pow2(64 + m))
  {
    Pow2Add(64, m);
    Pow2Values();
    var p := Pow2(m);
    hide Pow2;
    assert Join(hi, lo) * (W * p) == (hi * p) * W2 + (lo * W) * p;
    ModAddMultiple(hi * p, W2, (lo * W) * p);
  }

  lemma ShiftRightByHalf(hi: Word, lo: Word, m: nat)
    ensures Join(0, hi) / Pow2(m) == Join(hi, lo) / Pow2(64 + m)
  {
    Pow2Add(64, m);
    Pow2Values();
    hide Pow2;
    DivIs(Join(hi, lo), W, hi, lo);
    DivDiv(Join(hi, lo), W, Pow2(m));
  }

  lemma ShiftedOut(v: nat, n: nat)
    requires n >= 128 && v < W2
    ensures Wrap(v * Pow2(n)) == 0 && v / Pow2(n) == 0
  {
    Pow2Add(128, n - 128);
    Pow2Values();
    hide Pow2;
    ScaledOut(v, Pow2(n - 128));
  }

  lemma ScaledOut(v: nat, p: nat)
    requires p >= 1 && v < W2
    ensures Wrap(v * (W2 * p)) == 0 && v / (W2 * p) == 0
  {
    MulMono(1, p, W2);
    assert v * (W2 * p) == (v * p) * W2;
    ModAddMultiple(v * p, W2, 0);
    DivIs(v, W2 * p, 0, v);
  }

  lemma NoShift(v: nat)
    requires v < W2
    ensures Wrap(v * Pow2(0)) == v && v / Pow2(0) == v
  {
  }

  // ---------------------------------------------------------------- the class

  class U128 {
    var hi: Word
    var lo: Word

    ghost function Value(): (v: nat)
      reads this
      ensures v < W2
    {
      hi * W + lo
    }

    constructor (hi: Word, lo: Word)
      ensures this.hi == hi && this.lo == lo
      ensures Value() == hi * W + lo
    {
      this.hi, this.lo := hi, lo;
    }

    /** Copy assignment. */
    method Set(o: U128)
      modifies this
      ensures Value() == old(o.Value())
    {
      hi, lo := o.hi, o.lo;
    }

    predicate Equals(o: U128): (r: bool)
      reads this, o
      ensures r <==> Value() == o.Value()
    {
      hi == o.hi && lo == o.lo
    }

    predicate Less(o: U128): (r: bool)
      reads this, o
      ensures r <==> Value() < o.Value()
    {
      if hi == o.hi then lo < o.lo else hi < o.hi
    }

    predicate AtLeast(o: U128): (r: bool)
      reads this, o
      ensures r <==> Value() >= o.Value()
    {
      Equals(o) || o.Less(this)
    }

    predicate IsZero(): (r: bool)
      reads this
      ensures r <==> Value() == 0
    {
      hi == 0 && lo == 0
    }

    /** `to_integer`: none where the value does not fit 32 bits. */
    method ToInteger() returns (r: Option<nat>)
      ensures r == if Value() < B then Some(Value()) else None
    {
      return if hi != 0 || lo >= B then None else Some(lo);
    }

    method Increment()
      modifies this
      ensures Value() == Wrap(old(Value()) + 1)
    {
      WrapsOnce(Value() + 1);
      WordWrapsOnce(hi + 1);
      hide Wrap;
      lo := (lo + 1) % W;
      if lo == 0 {
        hi := (hi + 1) % W;
      }
    }

    method Decrement()
      modifies this
      ensures Value() == Wrap(old(Value()) - 1)
    {
      WrapsOnce(Value() - 1);
      hide Wrap;
      var was := lo;
      lo := (lo - 1) % W;
      if was == 0 {
        hi := (hi - 1) % W;
      }
    }

    method Negated() returns (r: U128)
      ensures fresh(r) && r.Value() == Wrap(W2 - Value())
    {
      r := new U128(Not(hi), Not(lo));
      r.Increment();
      assert W2 - 1 - Value() + 1 == W2 - Value();
      WrapsOnce(W2 - Value());
      hide Wrap;
    }

    /** The operand may be this very number. */
    method AddAssign(u: U128)
      modifies this
      ensures Value() == Wrap(old(Value()) + old(u.Value()))
    {
      hide Wrap;
      AddHalves(hi, lo, u.hi, u.lo);
      var was := lo;
      lo := (lo + u.lo) % W;
      hi := (hi + (u.hi + (if lo < was then 1 else 0)) % W) % W;
    }

    method SubAssign(u: U128)
      modifies this
      ensures Value() == Wrap(old(Value()) - old(u.Value()))
    {
      hide Wrap, Value;
      WrapSum(W2 - u.Value(), Value());
      WrapMultiple(Value() - u.Value());
      var minus := u.Negated();
      AddAssign(minus);
    }

    method OrAssign(u: U128)
      modifies this
      ensures Value() == Or(old(Value()), old(u.Value()))
    {
      hide Or;
      Pow2Values();
      OrBound(hi, u.hi, 64);
      OrBound(lo, u.lo, 64);
      OrOfParts(hi, lo, u.hi, u.lo, 64);
      hide Pow2;
      hi, lo := Or(hi, u.hi), Or(lo, u.lo);
    }

    method ShlAssign(rhs: U128)
      modifies this
      ensures Value() == Wrap(old(Value()) * Pow2(old(rhs.Value())))
    {
      hide Shl, Shr, TopBits, Or, Pow2, Wrap;
      ghost var v, n0 := Value(), rhs.Value();
      if rhs.hi != 0 || rhs.lo >= 128 {
        ShiftedOut(v, n0);
        hi, lo := 0, 0;
      } else {
        var n: nat := rhs.lo;
        NoShift(v);
        if n >= 64 {
          n := n - 64;
          ShiftLeftByHalf(hi, lo, n);
          hi := lo;
          lo := 0;
          NoShift(Value());
        }
        if n != 0 {
          ShiftLeft(hi, lo, n);
          WrapIs(Join(hi, lo) * Pow2(n));
          hi := Or(Shl(hi, n), TopBits(lo, n));
          lo := Shl(lo, n);
        }
      }
    }

    method ShrAssign(rhs: U128)
      modifies this
      ensures Value() == old(Value()) / Pow2(old(rhs.Value()))
    {
      hide Shl, Shr, BottomBits, Or, Pow2;
      ghost var v, n0 := Value(), rhs.Value();
      if rhs.hi != 0 || rhs.lo >= 128 {
        ShiftedOut(v, n0);
        hi, lo := 0, 0;
      } else {
        var n: nat := rhs.lo;
        NoShift(v);
        if n >= 64 {
          n := n - 64;
          ShiftRightByHalf(hi, lo, n);
          lo := hi;
          hi := 0;
          NoShift(Value());
        }
        if n != 0 {
          ShiftRight(hi, lo, n);
          lo := Or(Shr(lo, n), BottomBits(hi, n));
          hi := Shr(hi, n);
        }
      }
    }

    /** Adds a product of two limbs; `t` is the sum without wrap-around. */
    method AddWord(w: Word, ghost t: nat)
      requires Value() == Wrap(t)
      modifies this
      ensures Value() == Wrap(t + w)
    {
      hide Wrap;
      WrapSum(t, w);
      var u := new U128(0, w);
      AddAssign(u);
    }

    method ShlLimb(ghost t: nat)
      requires Value() == Wrap(t)
      modifies this
      ensures Value() == Wrap(t * B)
    {
      Pow2Values();
      hide Pow2, Wrap;
      WrapProduct(t, B);
      var n := new U128(0, 0x20);
      ShlAssign(n);
    }

    /** Four 32-bit limbs on each side; the operand may be this very number. */
    method MulAssign(b: U128)
      modifies this
      ensures Value() == Wrap(old(Value()) * old(b.Value()))
    {
      var a0, a1, a2, a3 := lo % B, lo / B, hi % B, hi / B;
      var b0, b1, b2, b3 := b.lo % B, b.lo / B, b.hi % B, b.hi / B;
      var p30, p21, p12, p03 := LimbProduct(a3, b0), LimbProduct(a2, b1), LimbProduct(a1, b2), LimbProduct(a0, b3);
      var p20, p11, p02 := LimbProduct(a2, b0), LimbProduct(a1, b1), LimbProduct(a0, b2);
      var p10, p01, p00 := LimbProduct(a1, b0), LimbProduct(a0, b1), LimbProduct(a0, b0);
      Schoolbook(Value(), b.Value(), a0, a1, a2, a3, b0, b1, b2, b3);
      hide Wrap, LimbProduct;
      SumProducts(p30, p21, p12, p03, p20, p11, p02, p10, p01, p00);
    }

    /** The ten products that matter, heaviest first, shifting one limb between the weights. */
    method SumProducts(p30: Word, p21: Word, p12: Word, p03: Word, p20: Word, p11: Word, p02: Word,
                       p10: Word, p01: Word, p00: Word)
      modifies this
      ensures Value() == Wrap((((p30 + p21 + p12 + p03) * B + p20 + p11 + p02) * B + p10 + p01) * B + p00)
    {
      SetWord(p30);
      hide Wrap, Value;
      AddThree(p21, p12, p03, p30);
      ghost var t3: nat := p30 + p21 + p12 + p03;
      ShlLimb(t3);
      AddThree(p20, p11, p02, t3 * B);
      ghost var t2: nat := t3 * B + p20 + p11 + p02;
      ShlLimb(t2);
      AddWord(p10, t2 * B);
      AddWord(p01, t2 * B + p10);
      ghost var t1: nat := t2 * B + p10 + p01;
      ShlLimb(t1);
      AddWord(p00, t1 * B);
    }

    method AddThree(x: Word, y: Word, z: Word, ghost t: nat)
      requires Value() == Wrap(t)
      modifies this
      ensures Value() == Wrap(t + x + y + z)
    {
      hide Wrap, Value;
      AddWord(x, t);
      AddWord(y, t + x);
      AddWord(z, t + x + y);
    }

    method SetWord(w: Word)
      modifies this
      ensures hi == 0 && lo == w && Value() == Wrap(w)
    {
      WrapsOnce(w);
      hi, lo := 0, w;
    }
  }

  /** The product of two 32-bit limbs fits a 64-bit word. */
  function LimbProduct(x: nat, y: nat): (p: Word)
    requires x < B && y < B
    ensures p == x * y
  {
    MulMono(x, B - 1, y);
    MulMono(y, B - 1, B - 1);
    MulMono(0, x, y);
    x * y
  }

  /** The terms of weight 2^128 and above drop out. */
  lemma Schoolbook(a: nat, b: nat, a0: nat, a1: nat, a2: nat, a3: nat, b0: nat, b1: nat, b2: nat, b3: nat)
    requires a == ((a3 * B + a2) * B + a1) * B + a0
    requires b == ((b3 * B + b2) * B + b1) * B + b0
    ensures Wrap(a * b)
         == Wrap((((a3 * b0 + a2 * b1 + a1 * b2 + a0 * b3) * B + a2 * b0 + a1 * b1 + a0 * b2) * B
              + a1 * b0 + a0 * b1) * B + a0 * b0)
  {
    var low := (((a3 * b0 + a2 * b1 + a1 * b2 + a0 * b3) * B + a2 * b0 + a1 * b1 + a0 * b2) * B
              + a1 * b0 + a0 * b1) * B + a0 * b0;
    var high := (a3 * b3 * B + a3 * b2 + a2 * b3) * B + a3 * b1 + a2 * b2 + a1 * b3;
    RowProduct(a0, b, b0, b1, b2, b3);
    RowProduct(a1, b, b0, b1, b2, b3);
    RowProduct(a2, b, b0, b1, b2, b3);
    RowProduct(a3, b, b0, b1, b2, b3);
    assert a * b == (((a3 * b) * B + a2 * b) * B + a1 * b) * B + a0 * b;
    assert a * b == high * W2 + low;
    ModAddMultiple(high, W2, low);
  }

  lemma RowProduct(x: nat, b: nat, b0: nat, b1: nat, b2: nat, b3: nat)
    requires b == ((b3 * B + b2) * B + b1) * B + b0
    ensures x * b == (((x * b3) * B + x * b2) * B + x * b1) * B + x * b0
  {
  }

  // ---------------------------------------------------------------- the exact product

  /** The whole 256-bit product; the results may be the operands themselves. */
  method FullProduct(a: U128, b: U128, resultHi: U128, resultLo: U128)
    requires resultHi != resultLo
    modifies resultHi, resultLo
    ensures resultHi.Value() * W2 + resultLo.Value() == old(a.Value()) * old(b.Value())
  {
    var ah, al, bh, bl := a.hi, a.lo, b.hi, b.lo;
    var sh, sl := WordProduct(al, bl);
    var rh, rl := WordProduct(ah, bl);
    var qh, ql := WordProduct(al, bh);
    var ph, pl := WordProduct(ah, bh);
    var y1, y2, y3 := AddColumns(sh, ql, rl, qh, rh, pl, ph);
    HalvesProduct(ah, al, bh, bl);
    ghost var product := (ah * W + al) * (bh * W + bl);
    assert product == (ph * W + pl) * W2 + ((qh * W + ql) + (rh * W + rl)) * W + (sh * W + sl);
    assert product == y3 * (W * W2) + ((y2 * W + y1) * W + sl);
    TopFits(ah * W + al, bh * W + bl, y3, (y2 * W + y1) * W + sl);
    WordWrapsOnce(y3);
    resultHi.hi, resultHi.lo := y3 % W, y2;
    resultLo.hi, resultLo.lo := y1, sl;
  }

  /** The middle words of the product, and the top word before it is reduced. */
  method AddColumns(sh: Word, ql: Word, rl: Word, qh: Word, rh: Word, pl: Word, ph: Word)
    returns (y1: Word, y2: Word, y3: nat)
    ensures (y3 - ph) * W2 + y2 * W + y1 == sh + ql + rl + (qh + rh + pl) * W
  {
    hide Wrap;
    var acc := new U128(0, 0);
    acc.SetWord(sh);
    acc.AddWord(ql, sh);
    acc.AddWord(rl, sh + ql);
    WrapsOnce(sh + ql + rl);
    y1 := acc.lo;
    var carry := acc.hi;
    acc.SetWord(carry);
    acc.AddWord(qh, carry);
    acc.AddWord(rh, carry + qh);
    acc.AddWord(pl, carry + qh + rh);
    WrapsOnce(carry + qh + rh + pl);
    y2 := acc.lo;
    y3 := acc.hi + ph;
  }

  /** `uint128 s = x; s *= y;` is exact. */
  method WordProduct(x: Word, y: Word) returns (h: Word, l: Word)
    ensures h * W + l == x * y
  {
    var s := new U128(0, x);
    var u := new U128(0, y);
    WordProductFits(x, y);
    WrapsOnce(x * y);
    hide Wrap;
    s.MulAssign(u);
    return s.hi, s.lo;
  }

  lemma WordProductFits(x: Word, y: Word)
    ensures 0 <= x * y < W2
  {
    MulMono(0, x, y);
    MulMono(x, W - 1, y);
  }

  lemma HalvesProduct(ah: nat, al: nat, bh: nat, bl: nat)
    ensures (ah * W + al) * (bh * W + bl) == ah * bh * W2 + (al * bh + ah * bl) * W + al * bl
  {
    assert (ah * W + al) * (bh * W + bl) == (ah * (bh * W + bl)) * W + al * (bh * W + bl);
    assert ah * (bh * W + bl) == ah * bh * W + ah * bl;
    assert al * (bh * W + bl) == al * bh * W + al * bl;
  }

  /** No carry is lost from the top word. */
  lemma TopFits(a: nat, b: nat, top: nat, rest: nat)
    requires a < W2 && b < W2 && top * (W * W2) + rest == a * b
    ensures top < W
  {
    MulMono(a, W2 - 1, b);
  }
}
