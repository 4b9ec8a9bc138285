/**
  What the checksum is: a remainder of polynomials over the two-element field, with the generator of
  Appendix B of RFC 4960. Messages are bit strings, the highest exponent first.
 */
module Crc32cPolynomial {
  import opened Bytes
  import opened Bits
  import opened Seqs
  import opened BitStrings
  import opened Crc32c

  /** A polynomial of degree below 32: coefficient e at index e. */
  type Rest = r: seq<bool> | |r| == 32 witness seq(32, i => false)

  /** The exponents of the generator. */
  predicate InGenerator(e: nat) {
    e in {32, 28, 27, 26, 25, 23, 22, 20, 19, 18, 14, 13, 11, 10, 9, 8, 6, 0}
  }

  // ---------------------------------------------------------------- long division

  /** The rest times x, plus b, less the generator if its leading term came up. */
  function Next(r: Rest, b: bool): Rest {
    seq(32, e requires 0 <= e < 32 => (if e == 0 then b else r[e - 1]) != (r[31] && InGenerator(e)))
  }

  function Run(r: Rest, s: seq<bool>): Rest
    decreases |s|
  {
    if s == [] then r else Run(Next(r, s[0]), s[1..])
  }

  function Nil(): Rest {
    seq(32, e => false)
  }

  /** What long division of a bit string by the generator leaves. */
  function Remainder(s: seq<bool>): Rest {
    Run(Nil(), s)
  }

  lemma {:induction false} RunConcat(r: Rest, a: seq<bool>, b: seq<bool>)
    ensures Run(r, a + b) == Run(Run(r, a), b)
    decreases |a|
  {
    hide Next;
    if a == [] {
      assert a + b == b;
    } else {
      assert (a + b)[1..] == a[1..] + b;
      RunConcat(Next(r, a[0]), a[1..], b);
    }
  }

  lemma RunOne(r: Rest, b: bool)
    ensures Run(r, [b]) == Next(r, b)
  {
    hide Next;
    assert [b][1..] == [];
  }

  /** The product of q and the generator; both have coefficient k at index k. */
  function Multiple(q: seq<bool>): (p: seq<bool>)
    ensures |p| == |q| + 32
  {
    if q == [] then Zeros(32)
    else
      seq(|q| + 32, k requires 0 <= k < |q| + 32 => ProductBit(q, Multiple(q[1..]), k))
  }

  function ProductBit(q: seq<bool>, shifted: seq<bool>, k: nat): bool
    requires q != [] && |shifted| == |q| + 31 && k < |q| + 32
  {
    (k > 0 && shifted[k - 1]) != (q[0] && InGenerator(k))
  }

  function At(p: seq<bool>, k: nat): bool {
    k < |p| && p[k]
  }

  /** The remainder deserves its name: the bit string is a multiple of the generator plus the remainder. */
  lemma {:induction false} RemainderDivides(s: seq<bool>) returns (q: seq<bool>)
    ensures |q| == |s|
    ensures forall k :: 0 <= k < |s| + 32 ==> At(Reversed(s), k) == (Multiple(q)[k] != At(Remainder(s), k))
    decreases |s|
  {
    if s == [] {
      q := [];
    } else {
      var n := |s| - 1;
      var front, b := s[..n], s[n];
      var quotient := RemainderDivides(front);
      var r := Remainder(front);
      assert s == front + [b];
      ReversedOfSnoc(front, b);
      RunConcat(Nil(), front, [b]);
      RunOne(r, b);
      q := [r[31]] + quotient;
      assert q[1..] == quotient;
      var product, shifted := Multiple(q), Multiple(quotient);
      hide Run, Multiple;
      forall k | 0 <= k < |s| + 32 ensures At(Reversed(s), k) == (product[k] != At(Remainder(s), k)) {
        assert product[k] == ProductBit(q, shifted, k);
        if k > 0 {
          assert At(Reversed(s), k) == At(Reversed(front), k - 1);
        }
      }
    }
  }

  // ---------------------------------------------------------------- linearity

  function Add(a: Rest, b: Rest): Rest {
    seq(32, e requires 0 <= e < 32 => a[e] != b[e])
  }

  /** The sum of two bit strings of one length. */
  function Sum(s: seq<bool>, t: seq<bool>): (u: seq<bool>)
    requires |s| == |t|
    ensures |u| == |s|
  {
    seq(|s|, i requires 0 <= i < |s| => s[i] != t[i])
  }

  lemma NextIsLinear(a: Rest, b: Rest, x: bool, y: bool)
    ensures Next(Add(a, b), x != y) == Add(Next(a, x), Next(b, y))
  {
    hide InGenerator;
    var l, r := Next(Add(a, b), x != y), Add(Next(a, x), Next(b, y));
    assert forall e :: 0 <= e < 32 ==> l[e] == r[e];
  }

  lemma {:induction false} RunIsLinear(a: Rest, b: Rest, s: seq<bool>, t: seq<bool>)
    requires |s| == |t|
    ensures Run(Add(a, b), Sum(s, t)) == Add(Run(a, s), Run(b, t))
    decreases |s|
  {
    hide Next, Add;
    if s != [] {
      NextIsLinear(a, b, s[0], t[0]);
      assert Sum(s, t)[1..] == Sum(s[1..], t[1..]);
      RunIsLinear(Next(a, s[0]), Next(b, t[0]), s[1..], t[1..]);
    }
  }

  lemma AddNil(a: Rest)
    ensures Add(a, Nil()) == a && Add(Nil(), a) == a
  {
    assert forall e :: 0 <= e < 32 ==> Add(a, Nil())[e] == a[e] && Add(Nil(), a)[e] == a[e];
  }

  lemma AddAssoc(a: Rest, b: Rest, c: Rest, d: Rest)
    ensures Add(Add(a, b), Add(c, d)) == Add(Add(a, c), Add(b, d))
  {
  }

  // ---------------------------------------------------------------- powers of x

  function Monomial(k: nat): Rest {
    seq(32, e => e == k)
  }

  /** The generator without its leading term, which is x to the 32 modulo the generator. */
  function Tail(): Rest {
    seq(32, e requires 0 <= e < 32 => InGenerator(e))
  }

  lemma MonomialShifts(k: nat)
    requires k < 31
    ensures Next(Monomial(k), false) == Monomial(k + 1)
  {
    hide InGenerator;
    var l, r := Next(Monomial(k), false), Monomial(k + 1);
    assert forall e :: 0 <= e < 32 ==> l[e] == r[e];
  }

  lemma TopReduces()
    ensures Next(Monomial(31), false) == Tail()
    ensures Next(Nil(), true) == Monomial(0) && Next(Nil(), false) == Nil()
  {
    hide InGenerator;
    assert forall e :: 0 <= e < 32 ==> Next(Monomial(31), false)[e] == Tail()[e];
    assert forall e :: 0 <= e < 32 ==> Next(Nil(), true)[e] == Monomial(0)[e] && Next(Nil(), false)[e] == Nil()[e];
  }

  lemma ZerosStep(n: nat)
    requires n > 0
    ensures Zeros(n) == [false] + Zeros(n - 1) && Zeros(n) == Zeros(n - 1) + [false] && Zeros(0) == []
  {
  }

  lemma {:induction false} RunMonomial(k: nat)
    requires k < 32
    ensures Run(Monomial(0), Zeros(k)) == Monomial(k)
    decreases k
  {
    hide Next, Monomial;
    if k > 0 {
      RunMonomial(k - 1);
      ZerosStep(k);
      RunConcat(Monomial(0), Zeros(k - 1), [false]);
      RunOne(Monomial(k - 1), false);
      MonomialShifts(k - 1);
    }
  }

  lemma {:induction false} RunZeros(n: nat)
    ensures Run(Nil(), Zeros(n)) == Nil()
    decreases n
  {
    hide Next, Nil;
    if n > 0 {
      RunZeros(n - 1);
      ZerosStep(n);
      RunConcat(Nil(), Zeros(n - 1), [false]);
      RunOne(Nil(), false);
      TopReduces();
    }
  }

  function Scaled(b: bool): Rest {
    if b then Tail() else Nil()
  }

  /** One bit followed by 32 zeros. */
  lemma BitRemainder(b: bool)
    ensures Run(Nil(), [b] + Zeros(32)) == Scaled(b)
  {
    hide Next, Nil, Monomial, Tail;
    RunConcat(Nil(), [b], Zeros(32));
    RunOne(Nil(), b);
    TopReduces();
    if b {
      ZerosStep(32);
      RunConcat(Monomial(0), Zeros(31), [false]);
      RunMonomial(31);
      RunOne(Monomial(31), false);
    } else {
      RunZeros(32);
    }
  }

  // ---------------------------------------------------------------- bits added at the top

  /** The register as the source uses it: the message bit meets the leading coefficient. */
  function Direct(r: Rest, s: seq<bool>): Rest
    decreases |s|
  {
    if s == [] then r else Direct(Taken(r, s[0]), s[1..])
  }

  function Taken(r: Rest, b: bool): Rest {
    seq(32, e requires 0 <= e < 32 => (e > 0 && r[e - 1]) != ((r[31] != b) && InGenerator(e)))
  }

  lemma TakenIs(r: Rest, b: bool)
    ensures Taken(r, b) == Add(Next(r, false), Scaled(b))
  {
    hide InGenerator;
    var t := Add(Next(r, false), Scaled(b));
    assert forall e :: 0 <= e < 32 ==> Taken(r, b)[e] == t[e];
  }

  lemma {:induction false} DirectSnoc(r: Rest, s: seq<bool>, b: bool)
    ensures Direct(r, s + [b]) == Taken(Direct(r, s), b)
    decreases |s|
  {
    hide Taken;
    if s == [] {
      assert s + [b] == [b] && [b][1..] == [];
    } else {
      assert (s + [b])[1..] == s[1..] + [b];
      DirectSnoc(Taken(r, s[0]), s[1..], b);
    }
  }

  /** The remainder of a message and one more bit, both followed by 32 zeros. */
  lemma OneMoreBit(s: seq<bool>, b: bool)
    ensures Remainder(s + [b] + Zeros(32)) == Add(Next(Remainder(s + Zeros(32)), false), Scaled(b))
  {
    hide Next, Add, Nil, Scaled, Run;
    var n := |s|;
    var x, y := s + [false] + Zeros(32), Zeros(n) + ([b] + Zeros(32));
    assert s + [b] + Zeros(32) == Sum(x, y);
    assert x == s + Zeros(32) + [false];
    AddNil(Nil());
    RunIsLinear(Nil(), Nil(), x, y);
    RunConcat(Nil(), s + Zeros(32), [false]);
    RunOne(Remainder(s + Zeros(32)), false);
    RunConcat(Nil(), Zeros(n), [b] + Zeros(32));
    RunZeros(n);
    BitRemainder(b);
  }

  /** The start value moves up past the message, the message past 32 zeros, and the remainders add up. */
  lemma {:induction false} DirectIsRemainder(r: Rest, s: seq<bool>)
    ensures Direct(r, s) == Add(Run(r, Zeros(|s|)), Remainder(s + Zeros(32)))
    decreases |s|
  {
    hide Next, Add, Nil, Scaled, Taken;
    if s == [] {
      assert s + Zeros(32) == Zeros(32) && Zeros(0) == [];
      RunZeros(32);
      AddNil(r);
    } else {
      var n := |s| - 1;
      var front, b := s[..n], s[n];
      assert s == front + [b];
      var a, c := Run(r, Zeros(n)), Remainder(front + Zeros(32));
      DirectIsRemainder(r, front);
      DirectSnoc(r, front, b);
      TakenIs(Add(a, c), b);
      NextIsLinear(a, c, false, false);
      ZerosStep(n + 1);
      RunConcat(r, Zeros(n), [false]);
      RunOne(a, false);
      OneMoreBit(front, b);
      AddAssoc(Next(a, false), Next(c, false), Nil(), Scaled(b));
      AddNil(Next(a, false));
      AddNil(Scaled(b));
    }
  }

  // ---------------------------------------------------------------- the register of the source

  /** The register as a polynomial: its lowest bit is the highest coefficient. */
  function Coefficients(w: Word): Rest {
    seq(32, e requires 0 <= e < 32 => w[31 - e])
  }

  /** The bits of v from the lowest on are the generator's coefficients from e down. */
  predicate Spells(v: nat, e: nat)
    decreases e
  {
    (v % 2 == 1) == InGenerator(e) && (e > 0 ==> Spells(v / 2, e - 1))
  }

  lemma {:induction false} SpelledBits(v: nat, e: nat, i: nat)
    requires Spells(v, e) && i <= e
    ensures ToBits(v, e + 1)[i] == InGenerator(e - i)
    decreases e
  {
    hide InGenerator;
    if i > 0 {
      SpelledBits(v / 2, e - 1, i - 1);
    }
  }

  lemma Spells8()
    ensures Spells(0x82, 7)
  {
    assert Spells(0x8, 3);
  }

  lemma Spells16()
    ensures Spells(0x82F6, 15)
  {
    Spells8();
    assert Spells(0x82F, 11);
  }

  lemma Spells24()
    ensures Spells(0x82F63B, 23)
  {
    Spells16();
    assert Spells(0x82F63, 19);
  }

  lemma PolySpells()
    ensures Spells(0x82F6_3B78, 31)
  {
    Spells24();
    assert Spells(0x82F63B7, 27);
  }

  lemma PolyIsGenerator(e: nat)
    requires e < 32
    ensures POLY[31 - e] == InGenerator(e)
  {
    PolySpells();
    hide ToBits, Spells, InGenerator;
    SpelledBits(0x82F6_3B78, 31, 31 - e);
  }

  /** One step that takes in a bit. */
  lemma StepIsTaken(w: Word, b: bool)
    ensures Coefficients(Xor(Shr(w, 1), if w[0] != b then POLY else Zeros(32))) == Taken(Coefficients(w), b)
  {
    hide ToBits, InGenerator, POLY;
    var x := Xor(Shr(w, 1), if w[0] != b then POLY else Zeros(32));
    var l, r := Coefficients(x), Taken(Coefficients(w), b);
    forall e | 0 <= e < 32 ensures l[e] == r[e] {
      PolyIsGenerator(e);
      assert x[31 - e] == ((e > 0 && w[32 - e]) != ((w[0] != b) && POLY[31 - e]));
    }
  }

  lemma BitStepOfSum(w: Word, s: seq<bool>)
    requires 0 < |s| <= 32
    ensures var moved := Xor(Shr(w, 1), if w[0] != s[0] then POLY else Zeros(32));
      BitStep(Xor(w, s + Zeros(32 - |s|))) == Xor(moved, s[1..] + Zeros(33 - |s|))
  {
    var moved := Xor(Shr(w, 1), if w[0] != s[0] then POLY else Zeros(32));
    var l, r := BitStep(Xor(w, s + Zeros(32 - |s|))), Xor(moved, s[1..] + Zeros(33 - |s|));
    hide ToBits;
    assert forall i :: 0 <= i < 32 ==> l[i] == r[i];
  }

  lemma {:induction false} BitStepsAreDirect(w: Word, s: seq<bool>)
    requires |s| <= 32
    ensures Coefficients(BitSteps(|s|, Xor(w, s + Zeros(32 - |s|)))) == Direct(Coefficients(w), s)
    decreases |s|
  {
    hide BitStep, Taken, Coefficients, Xor, Shr, POLY, ToBits;
    if s == [] {
      XorZero(w);
      assert s + Zeros(32) == Zeros(32);
    } else {
      var moved := Xor(Shr(w, 1), if w[0] != s[0] then POLY else Zeros(32));
      BitStepOfSum(w, s);
      StepIsTaken(w, s[0]);
      BitStepsAreDirect(moved, s[1..]);
    }
  }

  lemma FirstByteBits(data: seq<byte>)
    requires data != []
    ensures BitsOf(data) == OctetOf(data[0]) + BitsOf(data[1..])
  {
    hide Pow2, ToBits;
    var l, r := BitsOf(data), OctetOf(data[0]) + BitsOf(data[1..]);
    forall n | 0 <= n < 8 * |data| ensures l[n] == r[n] {
      if n < 8 {
        assert n / 8 == 0 && n % 8 == n;
        BitOfNumber(data[0] as nat, 8, n);
      } else {
        assert (n - 8) / 8 == n / 8 - 1 && (n - 8) % 8 == n % 8;
      }
    }
  }

  lemma {:induction false} DirectConcat(r: Rest, a: seq<bool>, b: seq<bool>)
    ensures Direct(r, a + b) == Direct(Direct(r, a), b)
    decreases |a|
  {
    hide Taken;
    if a == [] {
      assert a + b == b;
    } else {
      assert (a + b)[1..] == a[1..] + b;
      DirectConcat(Taken(r, a[0]), a[1..], b);
    }
  }

  lemma {:induction false} UpdateIsDirect(w: Word, data: seq<byte>)
    ensures Coefficients(Update(w, data)) == Direct(Coefficients(w), BitsOf(data))
    decreases |data|
  {
    hide BitSteps, Taken, Coefficients, Xor, Direct, OctetOf;
    if data == [] {
      assert BitsOf(data) == [];
      DirectNothing(Coefficients(w));
    } else {
      var s := OctetOf(data[0]);
      FirstByteBits(data);
      BitStepsAreDirect(w, s);
      DirectConcat(Coefficients(w), s, BitsOf(data[1..]));
      UpdateIsDirect(Feed(w, data[0]), data[1..]);
    }
  }

  lemma DirectNothing(r: Rest)
    ensures Direct(r, []) == r
  {
  }

  /** 32 bits go into an empty register as they are. */
  lemma {:induction false} ShiftedIn(s: seq<bool>)
    requires |s| <= 32
    ensures forall e :: 0 <= e < 32 ==> Run(Nil(), s)[e] == (e < |s| && s[|s| - 1 - e])
    decreases |s|
  {
    if s != [] {
      var n := |s| - 1;
      var front, b := s[..n], s[n];
      assert s == front + [b];
      ShiftedIn(front);
      RunConcat(Nil(), front, [b]);
      RunOne(Run(Nil(), front), b);
      hide Run, InGenerator;
    }
  }

  /**
    The checksum of any message from any start value: the start value moved up by the length of the
    message, plus the message moved up by 32, modulo the generator.
   */
  lemma UpdateIsRemainder(w: Word, data: seq<byte>)
    ensures Coefficients(Update(w, data))
         == Add(Remainder(w + Zeros(8 * |data|)), Remainder(BitsOf(data) + Zeros(32)))
  {
    hide Update, Direct, Add, Nil, BitsOf;
    UpdateIsDirect(w, data);
    DirectIsRemainder(Coefficients(w), BitsOf(data));
    RunConcat(Nil(), w, Zeros(8 * |data|));
    ShiftedIn(w);
    assert Run(Nil(), w) == Coefficients(w);
  }

  /** The byte 0x80 after a zero register leaves the generator itself. */
  lemma TopBitGivesGenerator(e: nat)
    requires e < 32
    ensures Update(Zeros(32), [0x80])[31 - e] == (e in {28, 27, 26, 25, 23, 22, 20, 19, 18, 14, 13, 11, 10, 9, 8, 6, 0})
  {
    hide *;
    var w := Update(Zeros(32), [0x80]);
    UpdateIsRemainder(Zeros(32), [0x80]);
    TopBitOnly();
    RemaindersOfTopBit();
    AddNil(Tail());
    TopCoefficients(w, e);
  }

  lemma TopCoefficients(w: Word, e: nat)
    requires e < 32
    ensures Coefficients(w)[e] == w[31 - e]
    ensures Tail()[e] == (e in {28, 27, 26, 25, 23, 22, 20, 19, 18, 14, 13, 11, 10, 9, 8, 6, 0})
  {
  }

  lemma RemaindersOfTopBit()
    ensures Remainder(Zeros(32) + Zeros(8)) == Nil()
    ensures Remainder(Zeros(7) + [true] + Zeros(32)) == Tail()
  {
    hide Next, Nil, Tail, Run;
    assert Zeros(32) + Zeros(8) == Zeros(40);
    assert Zeros(7) + [true] + Zeros(32) == Zeros(7) + ([true] + Zeros(32));
    RunZeros(40);
    RunConcat(Nil(), Zeros(7), [true] + Zeros(32));
    RunZeros(7);
    BitRemainder(true);
  }

  lemma TopBitOnly()
    ensures BitsOf([0x80]) == Zeros(7) + [true]
  {
    assert Pow2(0) == 1 && Pow2(1) == 2 && Pow2(2) == 4 && Pow2(3) == 8;
    assert Pow2(4) == 16 && Pow2(5) == 32 && Pow2(6) == 64 && Pow2(7) == 128;
    var s := BitsOf([0x80]);
    hide Pow2;
    assert forall n :: 0 <= n < 8 ==> n / 8 == 0 && n % 8 == n;
    assert forall n :: 0 <= n < 8 ==> s[n] == (n == 7);
  }
}
