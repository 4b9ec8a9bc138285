/**
  The Keccak-f[1600] permutation (section 3 of FIPS 202). A lane is its 64 bits, least significant
  first; the state is 25 lanes, lane (x, y) at index x + 5y.
 */
module Keccak {
  import opened Bits
  import opened KeccakConstants

  type Lane = w: seq<bool> | |w| == 64 witness seq(64, i => false)
  type Lanes = s: seq<Lane> | |s| == 25 witness seq(25, i => seq(64, j => false))

  function Xor(a: Lane, b: Lane): Lane {
    seq(64, i requires 0 <= i < 64 => a[i] != b[i])
  }

  function AndNot(a: Lane, b: Lane): Lane {
    seq(64, i requires 0 <= i < 64 => !a[i] && b[i])
  }

  /** Rotation towards the high bits. */
  function Rotl(x: Lane, n: nat): Lane
    requires n < 64
  {
    x[64 - n..] + x[..64 - n]
  }

  /** The source's rotl64: (x << n) | (x >> (64 - n)). */
  function ShiftOr(x: Lane, n: nat): Lane
    requires 0 < n < 64
  {
    var left, right := Zeros(n) + x[..64 - n], x[64 - n..] + Zeros(64 - n);
    seq(64, i requires 0 <= i < 64 => left[i] || right[i])
  }

  lemma ShiftOrRotates(x: Lane, n: nat)
    requires 0 < n < 64
    ensures ShiftOr(x, n) == Rotl(x, n)
  {
    var a, b := ShiftOr(x, n), Rotl(x, n);
    assert forall i :: 0 <= i < 64 ==> a[i] == b[i];
  }

  // ---------------------------------------------------------------- the step mappings

  function Parity(a: Lanes, x: nat): Lane
    requires x < 5
  {
    Xor(Xor(Xor(Xor(a[x], a[x + 5]), a[x + 10]), a[x + 15]), a[x + 20])
  }

  /** Section 3.2.1. */
  function Theta(a: Lanes): Lanes {
    seq(25, i requires 0 <= i < 25 => Xor(a[i], ThetaMask(a, i % 5)))
  }

  function ThetaMask(a: Lanes, x: nat): Lane
    requires x < 5
  {
    Xor(Parity(a, (x + 4) % 5), Rotl(Parity(a, (x + 1) % 5), 1))
  }

  /** The offsets of section 3.2.2, modulo 64, in the order of the lanes. */
  const OFFSETS: seq<nat> :=
    [0, 1, 62, 28, 27, 36, 44, 6, 55, 20, 3, 10, 43, 25, 39, 41, 45, 15, 21, 8, 18, 2, 61, 56, 14]

  function Offset(i: nat): (n: nat)
    requires i < 25
    ensures n < 64
  {
    OFFSETS[i]
  }

  /** Section 3.2.2. */
  function Rho(a: Lanes): Lanes {
    seq(25, i requires 0 <= i < 25 => Rotl(a[i], Offset(i)))
  }

  /** Where lane x + 5y of the result of pi comes from. */
  function PiSource(i: nat): (j: nat)
    requires i < 25
    ensures j < 25
  {
    var x, y := i % 5, i / 5;
    (x + 3 * y) % 5 + 5 * x
  }

  /** Section 3.2.3. */
  function Pi(a: Lanes): Lanes {
    seq(25, i requires 0 <= i < 25 => a[PiSource(i)])
  }

  /** Section 3.2.4. */
  function Chi(a: Lanes): Lanes {
    seq(25, i requires 0 <= i < 25 => ChiLane(a, i))
  }

  function ChiLane(a: Lanes, i: nat): Lane
    requires i < 25
  {
    Xor(a[i], AndNot(a[RightOf(i, 1)], a[RightOf(i, 2)]))
  }

  /** The lane n places to the right in the same row, cyclically. */
  function RightOf(i: nat, n: nat): (j: nat)
    requires i < 25
    ensures j < 25
  {
    i - i % 5 + (i % 5 + n) % 5
  }

  /** The constant of round r, from the feedback register. */
  function RoundConstant(r: nat): Lane {
    StandardConstant(r)
  }

  /** Section 3.2.5. */
  function Iota(a: Lanes, r: nat): Lanes
    requires r < 24
  {
    a[0 := Xor(a[0], RoundConstant(r))]
  }

  function Round(a: Lanes, r: nat): Lanes
    requires r < 24
  {
    Iota(Chi(Pi(Rho(Theta(a)))), r)
  }

  function Rounds(a: Lanes, n: nat): Lanes
    requires n <= 24
    decreases n
  {
    if n == 0 then a else Round(Rounds(a, n - 1), n - 1)
  }

  function KeccakF(a: Lanes): Lanes {
    Rounds(a, 24)
  }

  // ---------------------------------------------------------------- in place

  method ThetaInPlace(words: array<Lane>)
    requires words.Length == 25
    modifies words
    ensures words[..] == Theta(old(words[..]))
  {
    hide Xor, Rotl, Parity, ThetaMask;
    ghost var a: Lanes := words[..];
    var bc := Parities(words);
    for j := 0 to 5
      invariant forall i :: 0 <= i < 25 ==> words[i] == if i % 5 < j then Xor(a[i], ThetaMask(a, i % 5)) else a[i]
    {
      var t := ColumnMask(bc, j, a);
      AddToColumn(words, j, t);
    }
    assert words[..] == Theta(a);
  }

  method Parities(words: array<Lane>) returns (bc: seq<Lane>)
    requires words.Length == 25
    ensures |bc| == 5 && forall x :: 0 <= x < 5 ==> bc[x] == Parity(words[..], x)
  {
    hide Xor;
    bc := [];
    for j := 0 to 5
      invariant |bc| == j && forall x :: 0 <= x < j ==> bc[x] == Parity(words[..], x)
    {
      bc := bc + [Xor(Xor(Xor(Xor(words[j], words[j + 5]), words[j + 10]), words[j + 15]), words[j + 20])];
    }
  }

  method ColumnMask(bc: seq<Lane>, j: nat, ghost a: Lanes) returns (t: Lane)
    requires j < 5 && |bc| == 5 && forall x :: 0 <= x < 5 ==> bc[x] == Parity(a, x)
    ensures t == ThetaMask(a, j)
  {
    hide Xor, Rotl, Parity, ShiftOr;
    ShiftOrRotates(bc[(j + 1) % 5], 1);
    t := Xor(bc[(j + 4) % 5], ShiftOr(bc[(j + 1) % 5], 1));
  }

  method AddToColumn(words: array<Lane>, j: nat, t: Lane)
    requires words.Length == 25 && j < 5
    modifies words
    ensures forall i :: 0 <= i < 25 ==> words[i] == if i % 5 == j then Xor(old(words[i]), t) else old(words[i])
  {
    hide Xor;
    var k := 0;
    while k < 25
      invariant k % 5 == 0 && 0 <= k <= 25
      invariant forall i :: 0 <= i < 25 ==>
        words[i] == if i % 5 == j && i < k then Xor(old(words[i]), t) else old(words[i])
    {
      words[k + j] := Xor(words[k + j], t);
      k := k + 5;
    }
  }

  // ---------------------------------------------------------------- rho and pi with a single temporary

  const ROTATIONS: seq<nat> :=
    [1, 3, 6, 10, 15, 21, 28, 36, 45, 55, 2, 14, 27, 41, 56, 8, 25, 43, 62, 18, 39, 61, 20, 44]
  const PI_LANES: seq<nat> := [10, 7, 11, 17, 18, 3, 5, 16, 8, 21, 24, 4, 15, 23, 19, 13, 12, 2, 20, 14, 22, 9, 6, 1]

  /** The step of the cycle that writes lane i. */
  const WRITER: seq<nat> := [0, 23, 17, 5, 11, 6, 22, 1, 8, 21, 0, 2, 16, 15, 19, 12, 7, 3, 4, 14, 18, 9, 20, 13, 10]

  function Target(j: nat): (p: nat)
    requires j < 24
    ensures 1 <= p < 25
  {
    PI_LANES[j]
  }

  function Rotation(j: nat): (n: nat)
    requires j < 24
    ensures 1 <= n < 64
  {
    ROTATIONS[j]
  }

  function Writer(i: nat): (j: nat)
    requires 1 <= i < 25
    ensures j < 24
  {
    WRITER[i]
  }

  /** The lane whose old value is in the temporary when step j starts. */
  function Carried(j: nat): (p: nat)
    requires j <= 24
    ensures 1 <= p < 25
  {
    if j == 0 then 1 else Target(j - 1)
  }

  lemma WriterOfTarget(j: nat)
    requires j < 24
    ensures Writer(Target(j)) == j
  {
  }

  lemma TargetOfWriter(i: nat)
    requires 1 <= i < 25
    ensures Target(Writer(i)) == i
  {
  }

  /** Where pi takes each lane from, as a table. */
  const SOURCES: seq<nat> := [0, 6, 12, 18, 24, 3, 9, 10, 16, 22, 1, 7, 13, 19, 20, 4, 5, 11, 17, 23, 2, 8, 14, 15, 21]

  lemma PiSourceTable(i: nat)
    requires i < 25
    ensures PiSource(i) == SOURCES[i]
  {
    if i < 5 {
    } else if i < 10 {
      assert i / 5 == 1 && i % 5 == i - 5;
    } else if i < 15 {
      assert i / 5 == 2 && i % 5 == i - 10;
    } else if i < 20 {
      assert i / 5 == 3 && i % 5 == i - 15;
    } else {
      assert i / 5 == 4 && i % 5 == i - 20;
    }
  }

  lemma CarriedTable(i: nat)
    requires 1 <= i < 25
    ensures 1 <= SOURCES[i] < 25 && Carried(Writer(i)) == SOURCES[i]
  {
  }

  lemma RotationTable(i: nat)
    requires 1 <= i < 25 && 1 <= SOURCES[i] < 25
    ensures Offset(SOURCES[i]) == Rotation(Writer(i))
  {
    if i < 13 {
      assert i < 7 || i >= 7;
    } else {
      assert i < 19 || i >= 19;
    }
  }

  /** The cycle visits the lanes in the order in which pi moves them, with the offsets of rho. */
  lemma CycleIsRhoPi(i: nat)
    requires 1 <= i < 25
    ensures PiSource(i) == Carried(Writer(i)) && Offset(PiSource(i)) == Rotation(Writer(i))
  {
    hide *;
    PiSourceTable(i);
    CarriedTable(i);
    RotationTable(i);
  }

  // ---------------------------------------------------------------- the offsets are those of the standard

  /** From (x, y) to (y, 2x + 3y), the walk over the lanes in section 3.2.2. */
  function NextLane(i: nat): (j: nat)
    requires i < 25
    ensures j < 25
  {
    i / 5 + 5 * ((2 * (i % 5) + 3 * (i / 5)) % 5)
  }

  /** The walk starts at (1, 0). */
  function WalkLane(t: nat): (i: nat)
    ensures i < 25
  {
    if t == 0 then 1 else NextLane(WalkLane(t - 1))
  }

  function TriangularOffset(t: nat): nat {
    (t + 1) * (t + 2) / 2 % 64
  }

  /** The walk goes backwards where pi goes. */
  lemma NextOfPiSource(i: nat)
    requires i < 25
    ensures NextLane(PiSource(i)) == i
  {
    var x, y := i % 5, i / 5;
    var m := (x + 3 * y) % 5;
    WalkBack(x, y);
    assert PiSource(i) == m + 5 * x;
    hide PiSource;
    assert (m + 5 * x) / 5 == x && (m + 5 * x) % 5 == m;
  }

  lemma WalkBack(x: nat, y: nat)
    requires y < 5
    ensures (2 * ((x + 3 * y) % 5) + 3 * x) % 5 == y
  {
    var q := (x + 3 * y) / 5;
    assert 2 * ((x + 3 * y) % 5) + 3 * x == 5 * (x + y - 2 * q) + y;
  }

  lemma {:induction false} WalkIsCycle(t: nat)
    requires t < 24
    ensures WalkLane(t) == Carried(t)
    decreases t
  {
    hide PiSource, NextLane, Target, Writer, Offset, Rotation;
    if t > 0 {
      WalkIsCycle(t - 1);
      WriterOfTarget(t - 1);
      CycleIsRhoPi(Target(t - 1));
      NextOfPiSource(Target(t - 1));
    }
  }

  lemma TriangularStep(t: nat)
    requires t > 0
    ensures TriangularOffset(t) == (TriangularOffset(t - 1) + t + 1) % 64
  {
    NextProduct(t);
    HalfStep(t * (t + 1), t + 1);
  }

  lemma NextProduct(t: int)
    ensures (t + 1) * (t + 2) == t * (t + 1) + 2 * (t + 1)
  {
  }

  lemma HalfStep(p: nat, n: nat)
    ensures (p + 2 * n) / 2 % 64 == (p / 2 % 64 + n) % 64
  {
    assert (p + 2 * n) / 2 == p / 2 + n;
    SumMod64(p / 2, n);
  }

  lemma SumMod64(h: nat, n: nat)
    ensures (h + n) % 64 == (h % 64 + n) % 64
  {
    var q, r := h / 64, h % 64;
    assert h + n == 64 * q + (r + n);
  }

  lemma RotationStep(t: nat)
    requires 0 < t < 24
    ensures Rotation(t) == (Rotation(t - 1) + t + 1) % 64
  {
  }

  lemma FirstRotation()
    ensures Rotation(0) == TriangularOffset(0)
  {
  }

  lemma {:induction false} RotationIsTriangular(t: nat)
    requires t < 24
    ensures Rotation(t) == TriangularOffset(t)
    decreases t
  {
    hide *;
    if t == 0 {
      FirstRotation();
    } else {
      RotationIsTriangular(t - 1);
      RotationStep(t);
      TriangularStep(t);
    }
  }

  /** The table of offsets is the one that the walk generates, and the source's rotations are its steps. */
  lemma OffsetsAreStandard(t: nat)
    requires t < 24
    ensures Offset(0) == 0 && Offset(WalkLane(t)) == TriangularOffset(t) == Rotation(t)
  {
    assert Offset(0) == 0;
    hide *;
    WalkIsCycle(t);
    RotationIsTriangular(t);
    WriterOfTarget(t);
    CycleIsRhoPi(Target(t));
  }

  /** The walk meets every lane but the first. */
  lemma EveryLaneIsWalked(i: nat) returns (t: nat)
    requires 1 <= i < 25
    ensures t < 24 && WalkLane(t) == i
  {
    hide WalkLane, Writer, Target;
    TargetOfWriter(i);
    LastTarget();
    t := if Writer(i) == 23 then 0 else Writer(i) + 1;
    WalkIsCycle(t);
  }

  lemma LastTarget()
    ensures Target(23) == 1
  {
  }

  // ---------------------------------------------------------------- the cycle in place

  /** Lane i after j steps of the cycle. */
  ghost function Cycled(a: Lanes, j: nat, i: nat): Lane
    requires j <= 24 && 1 <= i < 25
  {
    if Writer(i) < j then Rotl(a[Carried(Writer(i))], Rotation(Writer(i))) else a[i]
  }

  lemma CycleStarts(a: Lanes, i: nat)
    requires 1 <= i < 25
    ensures Cycled(a, 0, i) == a[i]
  {
    hide Rotl, Writer, Rotation, Carried;
  }

  /** Step j writes its target, which was untouched until then, and no other lane. */
  lemma CycleSteps(a: Lanes, j: nat, i: nat)
    requires j < 24 && 1 <= i < 25
    ensures i == Target(j) ==> Cycled(a, j, i) == a[i] && Cycled(a, j + 1, i) == Rotl(a[Carried(j)], Rotation(j))
    ensures i != Target(j) ==> Cycled(a, j + 1, i) == Cycled(a, j, i)
  {
    hide Rotl, Writer, Rotation, Carried, Target;
    WriterOfTarget(j);
    TargetOfWriter(i);
  }

  lemma CycleEnds(a: Lanes, i: nat)
    requires 1 <= i < 25
    ensures Cycled(a, 24, i) == Pi(Rho(a))[i]
  {
    hide Rotl, Writer, Rotation, Carried, Offset, PiSource;
    CycleIsRhoPi(i);
  }

  method RhoPiInPlace(words: array<Lane>)
    requires words.Length == 25
    modifies words
    ensures words[..] == Pi(Rho(old(words[..])))
  {
    hide Rotl, Pi, Rho, Target, Rotation, Carried, Cycled, ShiftOr;
    ghost var a: Lanes := words[..];
    var t := words[1];
    CarriedFirst();
    forall i | 1 <= i < 25 ensures words[i] == Cycled(a, 0, i) {
      CycleStarts(a, i);
    }
    for j := 0 to 24
      invariant t == a[Carried(j)]
      invariant words[0] == a[0]
      invariant forall i :: 1 <= i < 25 ==> words[i] == Cycled(a, j, i)
    {
      CarriedNext(j);
      forall i | 1 <= i < 25
        ensures i == Target(j) ==> Cycled(a, j, i) == a[i] && Cycled(a, j + 1, i) == Rotl(a[Carried(j)], Rotation(j))
        ensures i != Target(j) ==> Cycled(a, j + 1, i) == Cycled(a, j, i)
      {
        CycleSteps(a, j, i);
      }
      var bc := words[Target(j)];
      ShiftOrRotates(t, Rotation(j));
      words[Target(j)] := ShiftOr(t, Rotation(j));
      t := bc;
    }
    forall i | 0 <= i < 25 ensures words[i] == Pi(Rho(a))[i] {
      if i == 0 {
        LaneZero(a);
      } else {
        CycleEnds(a, i);
      }
    }
  }

  lemma CarriedFirst()
    ensures Carried(0) == 1
  {
  }

  lemma CarriedNext(j: nat)
    requires j < 24
    ensures Carried(j + 1) == Target(j)
  {
  }

  lemma LaneZero(a: Lanes)
    ensures Pi(Rho(a))[0] == a[0]
  {
    assert PiSource(0) == 0 && Offset(0) == 0;
    assert a[0][64..] + a[0][..64] == a[0];
  }

  // ---------------------------------------------------------------- chi

  method ChiInPlace(words: array<Lane>)
    requires words.Length == 25
    modifies words
    ensures words[..] == Chi(old(words[..]))
  {
    hide ChiLane;
    ghost var a: Lanes := words[..];
    var j := 0;
    while j < 25
      invariant j % 5 == 0 && 0 <= j <= 25
      invariant forall i :: 0 <= i < 25 ==> words[i] == if i < j then ChiLane(a, i) else a[i]
    {
      ChiRow(words, j, a);
      j := j + 5;
    }
    assert words[..] == Chi(a);
  }

  lemma ChiNeighbours(a: Lanes, j: nat, k: nat)
    requires j % 5 == 0 && j < 25 && k < 5
    ensures ChiLane(a, j + k) == Xor(a[j + k], AndNot(a[j + (k + 1) % 5], a[j + (k + 2) % 5]))
  {
    hide Xor, AndNot;
    assert (j + k) % 5 == k;
  }

  method ChiRow(words: array<Lane>, j: nat, ghost a: Lanes)
    requires words.Length == 25 && j % 5 == 0 && j < 25
    requires forall i :: j <= i < 25 ==> words[i] == a[i]
    modifies words
    ensures forall i :: 0 <= i < 25 ==>
              words[i] == if j <= i < j + 5 then ChiLane(a, i) else old(words[i])
  {
    hide Xor, AndNot, ChiLane;
    var bc := words[j..j + 5];
    for k := 0 to 5
      invariant forall i :: 0 <= i < 25 ==>
        words[i] == if j <= i < j + k then ChiLane(a, i) else old(words[i])
    {
      ChiNeighbours(a, j, k);
      words[k + j] := Xor(words[k + j], AndNot(bc[(k + 1) % 5], bc[(k + 2) % 5]));
    }
  }

  // ---------------------------------------------------------------- the permutation

  /** `update_step`. */
  method UpdateStep(words: array<Lane>)
    requires words.Length == 25
    modifies words
    ensures words[..] == KeccakF(old(words[..]))
  {
    hide Theta, Rho, Pi, Chi, Xor, StandardConstant, TableConstant;
    ghost var a: Lanes := words[..];
    for i := 0 to 24
      invariant words[..] == Rounds(a, i)
    {
      ghost var before: Lanes := words[..];
      ThetaInPlace(words);
      RhoPiInPlace(words);
      ChiInPlace(words);
      ghost var mixed: Lanes := words[..];
      ConstantsAreStandard(i);
      words[0] := Xor(words[0], TableConstant(i));
      assert words[..] == mixed[0 := Xor(mixed[0], RoundConstant(i))];
      assert words[..] == Round(before, i);
    }
  }
}
