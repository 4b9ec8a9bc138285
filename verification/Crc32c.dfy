/**
  CRC-32C: slicing by eight against the bit-serial reflected division (Appendix B of RFC 4960).
  A 32-bit register is its bits, least significant first: a right shift drops bits at the front,
  a mask with 0xFF takes the first eight, and a little-endian load concatenates the bytes.
 */
module Crc32c {
  import opened Bytes
  import opened Bits

  type Word = w: seq<bool> | |w| == 32 witness seq(32, i => false)
  type Octet = b: seq<bool> | |b| == 8 witness seq(8, i => false)

  const POLY: Word := ToBits(0x82F6_3B78, 32)

  function Xor(a: Word, b: Word): Word {
    seq(32, i requires 0 <= i < 32 => a[i] != b[i])
  }

  function Shr(x: Word, n: nat): (r: Word)
    requires n <= 32
    ensures forall i :: 0 <= i < 32 ==> r[i] == (i + n < 32 && x[i + n])
  {
    x[n..] + Zeros(n)
  }

  function Extend(b: Octet): Word {
    b + Zeros(24)
  }

  function OctetOf(b: byte): Octet {
    ToBits(b as nat, 8)
  }

  // ---------------------------------------------------------------- the reference

  /** One step of the reflected division: shift a bit out, subtract the polynomial if it was set. */
  function BitStep(x: Word): Word {
    Xor(Shr(x, 1), if x[0] then POLY else Zeros(32))
  }

  function BitSteps(n: nat, x: Word): Word
    decreases n
  {
    if n == 0 then x else BitSteps(n - 1, BitStep(x))
  }

  /** Eight steps: the register moves on by a zero byte. */
  function ByteStep(x: Word): Word {
    BitSteps(8, x)
  }

  /** The register takes in one byte. */
  function Feed(crc: Word, b: byte): Word {
    ByteStep(Xor(crc, Extend(OctetOf(b))))
  }

  /** The checksum, byte by byte. */
  function Update(crc: Word, data: seq<byte>): Word
    decreases data
  {
    if data == [] then crc else Update(Feed(crc, data[0]), data[1..])
  }

  // ---------------------------------------------------------------- linearity

  lemma XorAssoc(a: Word, b: Word, c: Word)
    ensures Xor(Xor(a, b), c) == Xor(a, Xor(b, c))
  {
  }

  lemma XorZero(a: Word)
    ensures Xor(a, Zeros(32)) == a
  {
    assert forall i :: 0 <= i < 32 ==> Xor(a, Zeros(32))[i] == a[i];
  }

  lemma BitStepIsLinear(a: Word, b: Word)
    ensures BitStep(Xor(a, b)) == Xor(BitStep(a), BitStep(b))
  {
    var l, r := BitStep(Xor(a, b)), Xor(BitStep(a), BitStep(b));
    assert forall i :: 0 <= i < 32 ==> l[i] == r[i];
  }

  lemma {:induction false} BitStepsIsLinear(n: nat, a: Word, b: Word)
    ensures BitSteps(n, Xor(a, b)) == Xor(BitSteps(n, a), BitSteps(n, b))
    decreases n
  {
    hide Xor, BitStep;
    if n > 0 {
      BitStepIsLinear(a, b);
      BitStepsIsLinear(n - 1, BitStep(a), BitStep(b));
    }
  }

  /** While the low bits are clear nothing is subtracted. */
  lemma {:induction false} BitStepsShift(n: nat, x: Word)
    requires n <= 32 && forall i :: 0 <= i < n ==> !x[i]
    ensures BitSteps(n, x) == Shr(x, n)
    decreases n
  {
    if n == 0 {
      assert Shr(x, 0) == x;
    } else {
      var y := BitStep(x);
      assert forall i :: 0 <= i < 32 ==> y[i] == Shr(x, 1)[i];
      BitStepsShift(n - 1, y);
      assert Shr(y, n - 1) == Shr(x, n);
    }
  }

  function Steps(n: nat, x: Word): Word
    decreases n
  {
    if n == 0 then x else Steps(n - 1, ByteStep(x))
  }

  lemma ByteStepIsLinear(a: Word, b: Word)
    ensures ByteStep(Xor(a, b)) == Xor(ByteStep(a), ByteStep(b))
  {
    hide Xor, BitSteps;
    BitStepsIsLinear(8, a, b);
  }

  lemma {:induction false} StepsIsLinear(n: nat, a: Word, b: Word)
    ensures Steps(n, Xor(a, b)) == Xor(Steps(n, a), Steps(n, b))
    decreases n
  {
    hide Xor, ByteStep;
    if n > 0 {
      ByteStepIsLinear(a, b);
      StepsIsLinear(n - 1, ByteStep(a), ByteStep(b));
    }
  }

  lemma {:induction false} StepsAgain(n: nat, x: Word)
    ensures Steps(n + 1, x) == ByteStep(Steps(n, x))
    decreases n
  {
    hide ByteStep;
    if n > 0 {
      StepsAgain(n - 1, ByteStep(x));
    }
  }

  lemma {:induction false} StepsAdd(m: nat, n: nat, x: Word)
    ensures Steps(m + n, x) == Steps(n, Steps(m, x))
    decreases m
  {
    hide ByteStep;
    if m > 0 {
      StepsAdd(m - 1, n, ByteStep(x));
    }
  }

  /** The single-table form of a byte step. */
  lemma ByteStepSplits(x: Word)
    ensures ByteStep(x) == Xor(ByteStep(Extend(x[..8])), Shr(x, 8))
  {
    var low, high := Extend(x[..8]), Zeros(8) + x[8..];
    assert Xor(low, high) == x by {
      assert forall i :: 0 <= i < 32 ==> Xor(low, high)[i] == x[i];
    }
    ByteStepIsLinear(low, high);
    BitStepsShift(8, high);
    assert Shr(high, 8) == Shr(x, 8);
    hide BitSteps, Xor;
  }

  // ---------------------------------------------------------------- words of four bytes

  /** A byte in one of the four places of a word. */
  function Place(b: Octet, k: nat): Word
    requires k < 4
  {
    Zeros(8 * k) + b + Zeros(24 - 8 * k)
  }

  lemma PlaceZero(b: Octet)
    ensures Place(b, 0) == Extend(b)
  {
    assert Zeros(0) + b == b;
  }

  lemma SplitWord(x: Word)
    ensures x == Xor(Xor(Place(x[..8], 0), Place(x[8..16], 1)), Xor(Place(x[16..24], 2), Place(x[24..], 3)))
  {
    var p0, p1, p2, p3 := Place(x[..8], 0), Place(x[8..16], 1), Place(x[16..24], 2), Place(x[24..], 3);
    var y := Xor(Xor(p0, p1), Xor(p2, p3));
    forall i | 0 <= i < 32 ensures x[i] == y[i] {
      assert y[i] == ((p0[i] != p1[i]) != (p2[i] != p3[i]));
    }
  }

  /** A byte loaded one place higher is a byte met one step later. */
  lemma StepOfPlace(b: Octet, k: nat)
    requires 1 <= k < 4
    ensures ByteStep(Place(b, k)) == Place(b, k - 1)
  {
    PlaceShifted(b, k);
    hide BitSteps, Shr, Place;
    BitStepsShift(8, Place(b, k));
  }

  lemma PlaceShifted(b: Octet, k: nat)
    requires 1 <= k < 4
    ensures (forall i :: 0 <= i < 8 ==> !Place(b, k)[i]) && Shr(Place(b, k), 8) == Place(b, k - 1)
  {
  }

  lemma {:induction false} StepsOfPlace(n: nat, b: Octet, k: nat)
    requires k < 4 && k <= n
    ensures Steps(n, Place(b, k)) == Steps(n - k, Extend(b))
    decreases k
  {
    hide Place, ByteStep, Extend;
    if k > 0 {
      StepOfPlace(b, k);
      StepsOfPlace(n - 1, b, k - 1);
    } else {
      PlaceZero(b);
    }
  }

  /** Steps of a word, byte by byte. */
  lemma StepsOfWord(n: nat, x: Word)
    requires n >= 3
    ensures Steps(n, x) == Xor(Xor(Steps(n, Extend(x[..8])), Steps(n - 1, Extend(x[8..16]))),
                               Xor(Steps(n - 2, Extend(x[16..24])), Steps(n - 3, Extend(x[24..]))))
  {
    hide *;
    var p0, p1, p2, p3 := Place(x[..8], 0), Place(x[8..16], 1), Place(x[16..24], 2), Place(x[24..], 3);
    SplitWord(x);
    StepsIsLinear(n, Xor(p0, p1), Xor(p2, p3));
    StepsIsLinear(n, p0, p1);
    StepsIsLinear(n, p2, p3);
    StepsOfPlace(n, x[..8], 0);
    StepsOfPlace(n, x[8..16], 1);
    StepsOfPlace(n, x[16..24], 2);
    StepsOfPlace(n, x[24..], 3);
  }

  // ---------------------------------------------------------------- four bytes at a time

  lemma {:induction false} UpdateConcat(crc: Word, a: seq<byte>, b: seq<byte>)
    ensures Update(crc, a + b) == Update(Update(crc, a), b)
    decreases a
  {
    hide Feed;
    if a == [] {
      assert a + b == b;
    } else {
      assert (a + b)[1..] == a[1..] + b;
      UpdateConcat(Feed(crc, a[0]), a[1..], b);
    }
  }

  /** The little-endian word of four bytes. */
  function Load(data: seq<byte>): Word
    requires |data| == 4
  {
    OctetOf(data[0]) + OctetOf(data[1]) + OctetOf(data[2]) + OctetOf(data[3])
  }

  lemma LoadPlaces(d: seq<byte>)
    requires |d| == 4
    ensures Load(d)
        == Xor(Extend(OctetOf(d[0])),
               Xor(Place(OctetOf(d[1]), 1), Xor(Place(OctetOf(d[2]), 2), Place(OctetOf(d[3]), 3))))
  {
    hide OctetOf;
    var p0, p1, p2, p3 := Extend(OctetOf(d[0])), Place(OctetOf(d[1]), 1), Place(OctetOf(d[2]), 2),
        Place(OctetOf(d[3]), 3);
    var y := Xor(p0, Xor(p1, Xor(p2, p3)));
    forall i | 0 <= i < 32 ensures Load(d)[i] == y[i] {
      assert y[i] == (p0[i] != (p1[i] != (p2[i] != p3[i])));
    }
  }

  /** A register with later bytes folded in: the first byte goes in now, the others move down a place. */
  lemma Absorb(r: Word, b: byte, later: Word, later': Word, n: nat)
    requires ByteStep(later) == later'
    ensures Steps(n + 1, Xor(r, Xor(Extend(OctetOf(b)), later))) == Steps(n, Xor(Feed(r, b), later'))
  {
    hide Xor, ByteStep, Extend;
    XorAssoc(r, Extend(OctetOf(b)), later);
    ByteStepIsLinear(Xor(r, Extend(OctetOf(b))), later);
  }

  lemma ByteStepOfNothing()
    ensures ByteStep(Zeros(32)) == Zeros(32)
  {
    BitStepsShift(8, Zeros(32));
    assert Shr(Zeros(32), 8) == Zeros(32);
    hide BitSteps;
  }

  /** Four bytes, one at a time, are one word and four steps. */
  lemma UpdateWord(crc: Word, d: seq<byte>)
    requires |d| == 4
    ensures Update(crc, d) == Steps(4, Xor(crc, Load(d)))
  {
    hide *;
    var b1, b2, b3 := OctetOf(d[1]), OctetOf(d[2]), OctetOf(d[3]);
    var u1 := Feed(crc, d[0]);
    var u2 := Feed(u1, d[1]);
    var u3 := Feed(u2, d[2]);
    var u4 := Feed(u3, d[3]);
    UpdateFour(crc, d);
    LoadPlaces(d);
    var l0 := Xor(Place(b1, 1), Xor(Place(b2, 2), Place(b3, 3)));
    var l1 := Xor(Place(b2, 1), Place(b3, 2));
    StepOfPlace(b1, 1);
    StepOfPlace(b2, 2);
    StepOfPlace(b2, 1);
    StepOfPlace(b3, 3);
    StepOfPlace(b3, 2);
    StepOfPlace(b3, 1);
    PlaceZero(b1);
    PlaceZero(b2);
    PlaceZero(b3);
    ByteStepIsLinear(Place(b1, 1), Xor(Place(b2, 2), Place(b3, 3)));
    ByteStepIsLinear(Place(b2, 2), Place(b3, 3));
    ByteStepIsLinear(Place(b2, 1), Place(b3, 2));
    Absorb(crc, d[0], l0, Xor(Extend(b1), l1), 3);
    Absorb(u1, d[1], l1, Xor(Extend(b2), Place(b3, 1)), 2);
    Absorb(u2, d[2], Place(b3, 1), Extend(b3), 1);
    ByteStepOfNothing();
    XorZero(Extend(b3));
    XorZero(u4);
    Absorb(u3, d[3], Zeros(32), Zeros(32), 0);
    NoSteps(u4);
  }

  lemma NoSteps(x: Word)
    ensures Steps(0, x) == x
  {
  }

  lemma UpdateFour(crc: Word, d: seq<byte>)
    requires |d| == 4
    ensures Update(crc, d) == Feed(Feed(Feed(Feed(crc, d[0]), d[1]), d[2]), d[3])
  {
    hide Feed;
    var u1 := Feed(crc, d[0]);
    var u2 := Feed(u1, d[1]);
    var u3 := Feed(u2, d[2]);
    assert d[1..][1..] == d[2..] && d[2..][1..] == d[3..] && d[3..][1..] == [];
    assert Update(u3, d[3..]) == Feed(u3, d[3]);
    assert Update(u2, d[2..]) == Update(u3, d[3..]);
    assert Update(u1, d[1..]) == Update(u2, d[2..]);
  }
}
