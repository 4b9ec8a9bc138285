/** The constants of iota and rho: the source's tables, and where the standard takes them from (FIPS 202). */
module KeccakConstants {
  import opened Bits
  import opened Words

  // ---------------------------------------------------------------- the register of section 3.2.5

  /** The eight bits of the feedback register of algorithm 5. */
  datatype Register = R(r0: bool, r1: bool, r2: bool, r3: bool, r4: bool, r5: bool, r6: bool, r7: bool)

  function Shifted(x: Register): Register {
    R(x.r7, x.r0, x.r1, x.r2, x.r3 != x.r7, x.r4 != x.r7, x.r5 != x.r7, x.r6)
  }

  function RegisterAt(t: nat): Register {
    if t == 0 then R(true, false, false, false, false, false, false, false) else Shifted(RegisterAt(t - 1))
  }

  /** rc(t). */
  function Rc(t: nat): bool {
    RegisterAt(t % 255).r0
  }

  /** Bit i of the constant of round r: only the positions 2^j - 1 are used. */
  function ConstantBit(r: nat, i: nat): bool {
    match i
    case 0 => Rc(7 * r)
    case 1 => Rc(7 * r + 1)
    case 3 => Rc(7 * r + 2)
    case 7 => Rc(7 * r + 3)
    case 15 => Rc(7 * r + 4)
    case 31 => Rc(7 * r + 5)
    case 63 => Rc(7 * r + 6)
    case _ => false
  }

  /** The constant that the standard adds in round r. */
  function StandardConstant(r: nat): (c: seq<bool>)
    ensures |c| == 64
  {
    seq(64, i requires 0 <= i < 64 => ConstantBit(r, i))
  }

  // ---------------------------------------------------------------- the table of the source

  function RoundNumber(r: nat): nat {
    match r
    case 0 => 0x0000000000000001
    case 1 => 0x0000000000008082
    case 2 => 0x800000000000808a
    case 3 => 0x8000000080008000
    case 4 => 0x000000000000808b
    case 5 => 0x0000000080000001
    case 6 => 0x8000000080008081
    case 7 => 0x8000000000008009
    case 8 => 0x000000000000008a
    case 9 => 0x0000000000000088
    case 10 => 0x0000000080008009
    case 11 => 0x000000008000000a
    case 12 => 0x000000008000808b
    case 13 => 0x800000000000008b
    case 14 => 0x8000000000008089
    case 15 => 0x8000000000008003
    case 16 => 0x8000000000008002
    case 17 => 0x8000000000000080
    case 18 => 0x000000000000800a
    case 19 => 0x800000008000000a
    case 20 => 0x8000000080008081
    case 21 => 0x8000000000008080
    case 22 => 0x0000000080000001
    case _ => 0x8000000080008008
  }

  function TableConstant(r: nat): (c: seq<bool>)
    ensures |c| == 64
  {
    ToBits(RoundNumber(r), 64)
  }

  /** The register at the start of each round. */
  function RoundRegister(r: nat): Register {
    match r
    case 0 => R(true, false, false, false, false, false, false, false)
    case 1 => R(false, false, false, false, false, false, false, true)
    case 2 => R(false, false, false, true, true, false, true, true)
    case 3 => R(false, true, false, true, true, false, false, false)
    case 4 => R(true, true, true, true, true, false, true, true)
    case 5 => R(true, false, false, true, false, false, false, false)
    case 6 => R(true, false, true, false, true, true, false, false)
    case 7 => R(true, true, true, true, false, false, true, false)
    case 8 => R(false, true, false, true, false, false, true, true)
    case 9 => R(false, false, false, false, true, true, true, false)
    case 10 => R(true, false, false, false, false, false, true, false)
    case 11 => R(false, false, true, true, false, true, true, true)
    case 12 => R(true, false, true, false, true, false, true, true)
    case 13 => R(true, false, true, true, false, false, true, true)
    case 14 => R(true, true, false, false, false, true, true, false)
    case 15 => R(true, true, false, true, false, true, false, true)
    case 16 => R(false, true, false, true, false, true, false, true)
    case 17 => R(false, true, false, true, false, true, false, false)
    case 18 => R(false, true, false, false, true, true, true, true)
    case 19 => R(false, false, false, true, false, true, true, true)
    case 20 => R(true, true, true, false, true, true, false, false)
    case 21 => R(false, true, true, true, true, true, false, false)
    case 22 => R(true, true, false, true, false, false, false, false)
    case 23 => R(false, false, true, false, false, false, true, false)
    case _ => R(false, true, true, true, false, false, false, true)
  }

  /** Seven steps at once. */
  function Seven(x: Register): Register {
    R((x.r1 != x.r3) != x.r4, (x.r2 != x.r4) != x.r5, (x.r3 != x.r5) != x.r6, (x.r4 != x.r6) != x.r7,
        (((x.r1 != x.r3) != x.r4) != x.r5) != x.r7, (((x.r1 != x.r2) != x.r3) != x.r5) != x.r6,
        ((x.r1 != x.r2) != x.r6) != x.r7, ((x.r0 != x.r2) != x.r3) != x.r7)
  }

  lemma SevenIs(x: Register)
    ensures Seven(x) == Shifted(Shifted(Shifted(Shifted(Shifted(Shifted(Shifted(x)))))))
  {
    var x1 := Shifted(x);
    assert x1 == R(x.r7, x.r0, x.r1, x.r2, x.r3 != x.r7, x.r4 != x.r7, x.r5 != x.r7, x.r6);
    var x2 := Shifted(x1);
    assert x2 == R(x.r6, x.r7, x.r0, x.r1, x.r2 != x.r6, (x.r3 != x.r6) != x.r7, (x.r4 != x.r6) != x.r7,
        x.r5 != x.r7);
    var x3 := Shifted(x2);
    assert x3 == R(x.r5 != x.r7, x.r6, x.r7, x.r0, (x.r1 != x.r5) != x.r7, ((x.r2 != x.r5) != x.r6) != x.r7,
        (x.r3 != x.r5) != x.r6, (x.r4 != x.r6) != x.r7);
    var x4 := Shifted(x3);
    assert x4 == R((x.r4 != x.r6) != x.r7, x.r5 != x.r7, x.r6, x.r7, ((x.r0 != x.r4) != x.r6) != x.r7,
        ((x.r1 != x.r4) != x.r5) != x.r6, (x.r2 != x.r4) != x.r5, (x.r3 != x.r5) != x.r6);
    var x5 := Shifted(x4);
    assert x5 == R((x.r3 != x.r5) != x.r6, (x.r4 != x.r6) != x.r7, x.r5 != x.r7, x.r6,
        ((x.r3 != x.r5) != x.r6) != x.r7, (((x.r0 != x.r3) != x.r4) != x.r5) != x.r7, (x.r1 != x.r3) != x.r4,
        (x.r2 != x.r4) != x.r5);
    var x6 := Shifted(x5);
    assert x6 == R((x.r2 != x.r4) != x.r5, (x.r3 != x.r5) != x.r6, (x.r4 != x.r6) != x.r7, x.r5 != x.r7,
        ((x.r2 != x.r4) != x.r5) != x.r6, (((x.r2 != x.r3) != x.r4) != x.r6) != x.r7,
        ((x.r0 != x.r2) != x.r3) != x.r7, (x.r1 != x.r3) != x.r4);
  }

  lemma RegisterStep(t: nat)
    ensures RegisterAt(t + 1) == Shifted(RegisterAt(t))
  {
  }

  lemma SevenSteps(t: nat)
    ensures RegisterAt(t + 1) == Shifted(RegisterAt(t))
    ensures RegisterAt(t + 2) == Shifted(RegisterAt(t + 1))
    ensures RegisterAt(t + 3) == Shifted(RegisterAt(t + 2))
    ensures RegisterAt(t + 4) == Shifted(RegisterAt(t + 3))
    ensures RegisterAt(t + 5) == Shifted(RegisterAt(t + 4))
    ensures RegisterAt(t + 6) == Shifted(RegisterAt(t + 5))
    ensures RegisterAt(t + 7) == Seven(RegisterAt(t))
  {
    hide *;
    RegisterStep(t);
    RegisterStep(t + 1);
    RegisterStep(t + 2);
    RegisterStep(t + 3);
    RegisterStep(t + 4);
    RegisterStep(t + 5);
    RegisterStep(t + 6);
    SevenIs(RegisterAt(t));
  }

  lemma NextRegister(r: nat)
    requires r < 24
    ensures RoundRegister(r + 1) == Seven(RoundRegister(r))
  {
    if r < 6 {
      Registers0(r);
    } else if r < 12 {
      Registers6(r);
    } else if r < 18 {
      Registers12(r);
    } else {
      Registers18(r);
    }
  }

  lemma Registers0(r: nat)
    requires 0 <= r < 6
    ensures RoundRegister(r + 1) == Seven(RoundRegister(r))
  {
  }

  lemma Registers6(r: nat)
    requires 6 <= r < 12
    ensures RoundRegister(r + 1) == Seven(RoundRegister(r))
  {
  }

  lemma Registers12(r: nat)
    requires 12 <= r < 18
    ensures RoundRegister(r + 1) == Seven(RoundRegister(r))
  {
  }

  lemma Registers18(r: nat)
    requires 18 <= r < 24
    ensures RoundRegister(r + 1) == Seven(RoundRegister(r))
  {
  }

  lemma {:induction false} RegistersAre(r: nat)
    requires r <= 24
    ensures RegisterAt(7 * r) == RoundRegister(r)
  {
    if r > 0 {
      hide Seven, Shifted;
      RegistersAre(r - 1);
      hide RegisterAt, RoundRegister;
      NextRegister(r - 1);
      SevenSteps(7 * (r - 1));
    }
  }

  /** The number with the given bits at the positions 2^j - 1. */
  function Number(b0: bool, b1: bool, b3: bool, b7: bool, b15: bool, b31: bool, b63: bool): nat {
    Bit(b0) + 2 * Bit(b1) + 8 * Bit(b3) + 0x80 * Bit(b7) + 0x8000 * Bit(b15) + 0x8000_0000 * Bit(b31)
    + 0x8000_0000_0000_0000 * Bit(b63)
  }

  /** The seven bits that come out of the register, starting from its state x. */
  function NumberFrom(x: Register): nat {
    Number(x.r0, x.r7, x.r6, x.r5 != x.r7, (x.r4 != x.r6) != x.r7, (x.r3 != x.r5) != x.r6, (x.r2 != x.r4) != x.r5)
  }

  lemma NumbersAre(r: nat)
    requires r < 24
    ensures RoundNumber(r) == NumberFrom(RoundRegister(r))
  {
    if r < 12 {
      FirstNumbers(r);
    } else {
      LastNumbers(r);
    }
  }

  lemma FirstNumbers(r: nat)
    requires r < 12
    ensures RoundNumber(r) == NumberFrom(RoundRegister(r))
  {
  }

  lemma LastNumbers(r: nat)
    requires 12 <= r < 24
    ensures RoundNumber(r) == NumberFrom(RoundRegister(r))
  {
  }

  /** What comes out at the steps of round r. */
  lemma BitsOfRound(r: nat)
    requires r < 24
    ensures var x := RoundRegister(r);
      NumberFrom(x) == Number(Rc(7 * r), Rc(7 * r + 1), Rc(7 * r + 2), Rc(7 * r + 3), Rc(7 * r + 4), Rc(7 * r + 5),
                              Rc(7 * r + 6))
  {
    hide *;
    RegistersAre(r);
    SevenSteps(7 * r);
    OutputsAre(RoundRegister(r));
    RcIs(7 * r);
    RcIs(7 * r + 1);
    RcIs(7 * r + 2);
    RcIs(7 * r + 3);
    RcIs(7 * r + 4);
    RcIs(7 * r + 5);
    RcIs(7 * r + 6);
  }

  lemma RcIs(t: nat)
    requires t < 255
    ensures Rc(t) == RegisterAt(t).r0
  {
    hide RegisterAt;
    assert t % 255 == t;
  }

  lemma OutputsAre(x: Register)
    ensures var x1 := Shifted(x);
      var x2 := Shifted(x1);
      var x3 := Shifted(x2);
      var x4 := Shifted(x3);
      var x5 := Shifted(x4);
      NumberFrom(x) == Number(x.r0, x1.r0, x2.r0, x3.r0, x4.r0, x5.r0, Shifted(x5).r0)
  {
    hide Number;
  }

  lemma {:induction false} FromBitsConcat(a: seq<bool>, b: seq<bool>)
    ensures FromBits(a + b) == FromBits(a) + Pow2(|a|) * FromBits(b)
    decreases |a|
  {
    hide *;
    if a == [] {
      assert a + b == b;
      Nothing();
    } else {
      var rest := a[1..];
      assert a == [a[0]] + rest && a + b == [a[0]] + (rest + b);
      OneBit(a[0], rest);
      OneBit(a[0], rest + b);
      FromBitsConcat(rest, b);
      Pow2Step(|a|);
      Twice(Pow2(|rest|), FromBits(b));
    }
  }

  lemma Nothing()
    ensures FromBits([]) == 0 && Pow2(0) == 1
  {
  }

  lemma Twice(p: nat, n: nat)
    ensures 2 * (p * n) == 2 * p * n
  {
  }

  lemma {:induction false} FromBitsOfZeros(n: nat, b: seq<bool>)
    ensures FromBits(Zeros(n) + b) == Pow2(n) * FromBits(b)
    decreases n
  {
    FromBitsConcat(Zeros(n), b);
    NoBits(n);
  }

  lemma {:induction false} NoBits(n: nat)
    ensures FromBits(Zeros(n)) == 0
  {
    if n > 0 {
      assert Zeros(n)[1..] == Zeros(n - 1);
      NoBits(n - 1);
    }
  }

  /** Seven bits, each followed by so many zeros that it is at position 2^j - 1. */
  function Spread(b0: bool, b1: bool, b3: bool, b7: bool, b15: bool, b31: bool, b63: bool): (c: seq<bool>)
    ensures |c| == 64
  {
    [b0, b1, false, b3, false, false, false, b7] + (Zeros(7) + ([b15] + (Zeros(15) + ([b31] + (Zeros(31) + [b63])))))
  }

  lemma OneBit(b: bool, rest: seq<bool>)
    ensures FromBits([b] + rest) == Bit(b) + 2 * FromBits(rest)
  {
    assert ([b] + rest)[1..] == rest;
  }

  lemma EightBits(b0: bool, b1: bool, b3: bool, b7: bool, rest: seq<bool>)
    ensures FromBits([b0, b1, false, b3, false, false, false, b7] + rest)
         == Bit(b0) + 2 * Bit(b1) + 8 * Bit(b3) + 0x80 * Bit(b7) + 0x100 * FromBits(rest)
  {
    hide FromBits;
    var r7 := [b7] + rest;
    var r6 := [false] + r7;
    var r5 := [false] + r6;
    var r4 := [false] + r5;
    var r3 := [b3] + r4;
    var r2 := [false] + r3;
    var r1 := [b1] + r2;
    assert [b0, b1, false, b3, false, false, false, b7] + rest == [b0] + r1;
    OneBit(b0, r1);
    OneBit(b1, r2);
    OneBit(false, r3);
    OneBit(b3, r4);
    OneBit(false, r5);
    OneBit(false, r6);
    OneBit(false, r7);
    OneBit(b7, rest);
  }

  lemma SpreadNumber(b0: bool, b1: bool, b3: bool, b7: bool, b15: bool, b31: bool, b63: bool)
    ensures ToBits(Number(b0, b1, b3, b7, b15, b31, b63), 64) == Spread(b0, b1, b3, b7, b15, b31, b63)
  {
    hide FromBits, Pow2, ToBits, Zeros;
    var top := [b63];
    var high := [b31] + (Zeros(31) + top);
    var middle := [b15] + (Zeros(15) + high);
    assert top == [b63] + [];
    OneBit(b63, []);
    Powers();
    FromBitsOfZeros(31, top);
    OneBit(b31, Zeros(31) + top);
    FromBitsOfZeros(15, high);
    OneBit(b15, Zeros(15) + high);
    FromBitsOfZeros(7, middle);
    EightBits(b0, b1, b3, b7, Zeros(7) + middle);
    ToBitsOfFromBits(Spread(b0, b1, b3, b7, b15, b31, b63));
  }

  lemma SixteenIs()
    ensures Pow2(4) == 16
  {
  }

  lemma Powers()
    ensures Pow2(7) == 0x80 && Pow2(15) == 0x8000 && Pow2(31) == 0x8000_0000 && FromBits([]) == 0
  {
    hide Pow2;
    assert Pow2(4) == 16 by { SixteenIs(); }
    Pow2Doubles(4, 16, 8);
    Pow2Doubles(8, 0x100, 16);
    Pow2Doubles(16, 0x1_0000, 32);
    Pow2Step(8);
    Pow2Step(16);
    Pow2Step(32);
  }

  /** The table of the source holds the constants that the standard generates. */
  lemma ConstantsAreStandard(r: nat)
    requires r < 24
    ensures TableConstant(r) == StandardConstant(r)
  {
    NumbersAre(r);
    BitsOfRound(r);
    hide Rc, Number, NumberFrom, RoundNumber, RoundRegister, ToBits;
    var b0, b1, b2, b3 := Rc(7 * r), Rc(7 * r + 1), Rc(7 * r + 2), Rc(7 * r + 3);
    var b4, b5, b6 := Rc(7 * r + 4), Rc(7 * r + 5), Rc(7 * r + 6);
    SpreadNumber(b0, b1, b2, b3, b4, b5, b6);
    SpreadBits(r);
  }

  lemma SpreadBits(r: nat)
    ensures Spread(Rc(7 * r), Rc(7 * r + 1), Rc(7 * r + 2), Rc(7 * r + 3), Rc(7 * r + 4), Rc(7 * r + 5), Rc(7 * r + 6))
         == StandardConstant(r)
  {
    hide Rc;
    var c := Spread(Rc(7 * r), Rc(7 * r + 1), Rc(7 * r + 2), Rc(7 * r + 3), Rc(7 * r + 4), Rc(7 * r + 5),
                    Rc(7 * r + 6));
    assert forall i :: 0 <= i < 64 ==> c[i] == ConstantBit(r, i);
  }
}
