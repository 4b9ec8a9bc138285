/** The lanes of the implementation are the bits of the standard, and its digests are the standard's. */
module Sha3Bits {
  import opened Arith
  import opened Bytes
  import opened Bits
  import opened BitStrings
  import opened Keccak
  import opened KeccakConstants
  import opened Sha3
  import F = Fips202

  /** The state as a string of bits. */
  function Flat(a: Lanes): F.State {
    seq(1600, n requires 0 <= n < 1600 => a[n / 64][n % 64])
  }

  lemma Index(k: nat, z: nat)
    requires k < 25 && z < 64
    ensures (64 * k + z) / 64 == k && (64 * k + z) % 64 == z && 64 * k + z < 1600
  {
  }

  lemma Coordinates(n: nat)
    requires n < 1600
    ensures F.X(n) == n / 64 % 5 < 5 && F.Y(n) == n / 64 / 5 < 5 && F.Z(n) == n % 64 < 64
    ensures n / 64 == 5 * F.Y(n) + F.X(n) < 25
  {
  }

  lemma BitOfLane(a: Lanes, x: int, y: int, z: int)
    ensures F.Bit(Flat(a), x, y, z) == a[5 * (y % 5) + x % 5][z % 64]
  {
    Index(5 * (y % 5) + x % 5, z % 64);
  }

  // ---------------------------------------------------------------- theta

  lemma ParityIsColumn(a: Lanes, x: int, z: int)
    ensures F.Column(Flat(a), x, z) == Parity(a, x % 5)[z % 64]
  {
    hide Flat;
    BitOfLane(a, x, 0, z);
    BitOfLane(a, x, 1, z);
    BitOfLane(a, x, 2, z);
    BitOfLane(a, x, 3, z);
    BitOfLane(a, x, 4, z);
    hide F.Bit;
  }

  lemma RotatedBit(x: Lane, n: nat, z: nat)
    requires n < 64 && z < 64
    ensures Rotl(x, n)[z] == x[(z - n) % 64]
  {
  }

  lemma SmallMods(x: nat, z: nat)
    requires x < 5 && z < 64
    ensures x % 5 == x && (x - 1) % 5 == (x + 4) % 5 && z % 64 == z
  {
  }

  lemma MaskBit(a: Lanes, x: nat, z: nat)
    requires x < 5 && z < 64
    ensures ThetaMask(a, x)[z] == (F.Column(Flat(a), x - 1, z) != F.Column(Flat(a), x + 1, z - 1))
  {
    hide F.Column, Flat, Parity, Rotl;
    SmallMods(x, z);
    ParityIsColumn(a, x - 1, z);
    ParityIsColumn(a, x + 1, z - 1);
    RotatedBit(Parity(a, (x + 1) % 5), 1, z);
  }

  lemma LaneIndex(x: nat, y: nat)
    requires x < 5 && y < 5
    ensures 5 * y + x < 25 && (5 * y + x) % 5 == x && (5 * y + x) / 5 == y && x % 5 == x && y % 5 == y
  {
  }

  lemma BitInRange(a: Lanes, x: nat, y: nat, z: nat)
    requires x < 5 && y < 5 && z < 64
    ensures 5 * y + x < 25 && F.Bit(Flat(a), x, y, z) == a[5 * y + x][z]
  {
    hide F.Bit, Flat;
    BitOfLane(a, x, y, z);
    LaneIndex(x, y);
    SmallMods(x, z);
  }

  lemma ThetaOfLane(a: Lanes, x: nat, y: nat, z: nat)
    requires x < 5 && y < 5 && z < 64
    ensures 5 * y + x < 25 && Keccak.Theta(a)[5 * y + x][z] == F.ThetaBit(Flat(a), x, y, z)
  {
    hide F.Bit, F.Column, Flat, ThetaMask;
    LaneIndex(x, y);
    BitInRange(a, x, y, z);
    MaskBit(a, x, z);
  }

  lemma ThetaIsStandard(a: Lanes)
    ensures Flat(Keccak.Theta(a)) == F.Theta(Flat(a))
  {
    hide F.ThetaBit, Keccak.Theta, F.X, F.Y, F.Z;
    forall n | 0 <= n < 1600 ensures Flat(Keccak.Theta(a))[n] == F.Theta(Flat(a))[n] {
      Coordinates(n);
      ThetaOfLane(a, F.X(n), F.Y(n), F.Z(n));
    }
  }

  // ---------------------------------------------------------------- rho

  /** The walk of the standard, by lanes. */
  lemma {:induction false} WalkIsLane(t: nat)
    ensures F.WalkX(t) < 5 && F.WalkY(t) < 5
    ensures WalkLane(t) == 5 * F.WalkY(t) + F.WalkX(t)
    decreases t
  {
    if t > 0 {
      WalkIsLane(t - 1);
      WalkStep(t);
      hide NextLane, WalkLane, F.WalkX, F.WalkY;
      NextLaneIs(F.WalkX(t - 1), F.WalkY(t - 1));
    }
  }

  lemma WalkStep(t: nat)
    requires t > 0
    ensures F.WalkX(t) == F.WalkY(t - 1)
    ensures F.WalkY(t) == (2 * F.WalkX(t - 1) + 3 * F.WalkY(t - 1)) % 5 < 5
    ensures WalkLane(t) == NextLane(WalkLane(t - 1))
  {
    hide NextLane;
  }

  lemma NextLaneIs(x: nat, y: nat)
    requires x < 5 && y < 5
    ensures NextLane(5 * y + x) == y + 5 * ((2 * x + 3 * y) % 5)
  {
    LaneIndex(x, y);
  }

  lemma {:induction false} VisitFinds(x: nat, y: nat, t: nat, u: nat)
    requires t <= u < 24 && F.WalkX(u) == x && F.WalkY(u) == y
    ensures var v := F.Visit(x, y, t); v < 24 && F.WalkX(v) == x && F.WalkY(v) == y
    decreases u - t
  {
    hide F.WalkX, F.WalkY;
    if t < u && !(F.WalkX(t) == x && F.WalkY(t) == y) {
      VisitFinds(x, y, t + 1, u);
    }
  }

  lemma LaneIsVisit(k: nat)
    requires 1 <= k < 25
    ensures var v := F.Visit(k % 5, k / 5, 0); v < 24 && WalkLane(v) == k
  {
    hide F.WalkX, F.WalkY, WalkLane, F.Visit;
    var u := EveryLaneIsWalked(k);
    WalkIsLane(u);
    LaneIndex(F.WalkX(u), F.WalkY(u));
    VisitFinds(k % 5, k / 5, 0, u);
    WalkIsLane(F.Visit(k % 5, k / 5, 0));
  }

  lemma OffsetIsStandard(x: nat, y: nat)
    requires x < 5 && y < 5
    ensures 5 * y + x < 25 && Offset(5 * y + x) == F.RhoOffset(x, y) % 64
  {
    hide F.WalkX, F.WalkY, WalkLane, F.Visit, Offset, Rotation;
    LaneIndex(x, y);
    if x == 0 && y == 0 {
      OffsetsAreStandard(0);
    } else {
      LaneIsVisit(5 * y + x);
      OffsetsAreStandard(F.Visit(x, y, 0));
    }
  }

  lemma RhoOfLane(a: Lanes, x: nat, y: nat, z: nat)
    requires x < 5 && y < 5 && z < 64
    ensures 5 * y + x < 25 && Keccak.Rho(a)[5 * y + x][z] == F.Bit(Flat(a), x, y, z - F.RhoOffset(x, y))
  {
    hide Offset, Rotl, F.RhoOffset, F.Bit, Flat;
    LaneIndex(x, y);
    OffsetIsStandard(x, y);
    var o := F.RhoOffset(x, y);
    BitOfLane(a, x, y, z - o);
    RotatedBit(a[5 * y + x], Offset(5 * y + x), z);
    SameModulo(z, o);
  }

  lemma SameModulo(z: int, o: int)
    ensures (z - o % 64) % 64 == (z - o) % 64
  {
  }

  lemma RhoIsStandard(a: Lanes)
    ensures Flat(Keccak.Rho(a)) == F.Rho(Flat(a))
  {
    hide F.RhoOffset, F.Bit, Keccak.Rho, F.X, F.Y, F.Z;
    forall n | 0 <= n < 1600 ensures Flat(Keccak.Rho(a))[n] == F.Rho(Flat(a))[n] {
      Coordinates(n);
      RhoOfLane(a, F.X(n), F.Y(n), F.Z(n));
    }
  }

  // ---------------------------------------------------------------- pi, chi, iota

  lemma PiOfLane(a: Lanes, x: nat, y: nat, z: nat)
    requires x < 5 && y < 5 && z < 64
    ensures 5 * y + x < 25 && Keccak.Pi(a)[5 * y + x][z] == F.Bit(Flat(a), x + 3 * y, x, z)
  {
    hide F.Bit, Flat;
    LaneIndex(x, y);
    SmallMods(x, z);
    BitOfLane(a, x + 3 * y, x, z);
  }

  lemma PiIsStandard(a: Lanes)
    ensures Flat(Keccak.Pi(a)) == F.Pi(Flat(a))
  {
    hide F.Bit, Keccak.Pi, F.X, F.Y, F.Z;
    forall n | 0 <= n < 1600 ensures Flat(Keccak.Pi(a))[n] == F.Pi(Flat(a))[n] {
      Coordinates(n);
      PiOfLane(a, F.X(n), F.Y(n), F.Z(n));
    }
  }

  lemma RightIs(x: nat, y: nat, m: nat)
    requires x < 5 && y < 5
    ensures RightOf(5 * y + x, m) == 5 * y + (x + m) % 5
  {
    LaneIndex(x, y);
  }

  lemma BitToTheRight(a: Lanes, x: nat, y: nat, m: nat, z: nat)
    requires x < 5 && y < 5 && z < 64
    ensures 5 * y + x < 25 && F.Bit(Flat(a), x + m, y, z) == a[RightOf(5 * y + x, m)][z]
  {
    hide F.Bit, Flat, RightOf;
    LaneIndex(x, y);
    BitOfLane(a, x + m, y, z);
    RightIs(x, y, m);
  }

  lemma ChiOfLane(a: Lanes, x: nat, y: nat, z: nat)
    requires x < 5 && y < 5 && z < 64
    ensures 5 * y + x < 25 && Keccak.Chi(a)[5 * y + x][z] == F.ChiBit(Flat(a), x, y, z)
  {
    hide F.Bit, Flat, RightOf;
    BitInRange(a, x, y, z);
    BitToTheRight(a, x, y, 1, z);
    BitToTheRight(a, x, y, 2, z);
  }

  lemma ChiIsStandard(a: Lanes)
    ensures Flat(Keccak.Chi(a)) == F.Chi(Flat(a))
  {
    hide F.ChiBit, Keccak.Chi, F.X, F.Y, F.Z;
    forall n | 0 <= n < 1600 ensures Flat(Keccak.Chi(a))[n] == F.Chi(Flat(a))[n] {
      Coordinates(n);
      ChiOfLane(a, F.X(n), F.Y(n), F.Z(n));
    }
  }

  function Bools(x: KeccakConstants.Register): seq<bool> {
    [x.r0, x.r1, x.r2, x.r3, x.r4, x.r5, x.r6, x.r7]
  }

  lemma {:induction false} RegisterIsStandard(t: nat)
    ensures F.Register(t) == Bools(RegisterAt(t))
    decreases t
  {
    if t > 0 {
      RegisterIsStandard(t - 1);
    }
  }

  lemma ConstantIsStandard(r: nat, z: nat)
    requires r < 24 && z < 64
    ensures RoundConstant(r)[z] == F.RoundBit(r, z)
  {
    forall t: nat ensures KeccakConstants.Rc(t) == F.Rc(t) {
      RegisterIsStandard(t % 255);
    }
    hide KeccakConstants.Rc, F.Rc;
  }

  lemma IotaIsStandard(a: Lanes, r: nat)
    requires r < 24
    ensures Flat(Keccak.Iota(a, r)) == F.Iota(Flat(a), r)
  {
    hide RoundConstant, F.RoundBit;
    forall n | 0 <= n < 1600 ensures Flat(Keccak.Iota(a, r))[n] == F.Iota(Flat(a), r)[n] {
      if n < 64 {
        ConstantIsStandard(r, n);
        assert n / 64 == 0 && n % 64 == n;
      } else {
        assert n / 64 >= 1;
      }
    }
  }

  lemma {:induction false} RoundsAreStandard(a: Lanes, n: nat)
    requires n <= 24
    ensures Flat(Keccak.Rounds(a, n)) == F.Rounds(Flat(a), n)
    decreases n
  {
    hide Flat, Keccak.Theta, Keccak.Rho, Keccak.Pi, Keccak.Chi, Keccak.Iota, F.Theta, F.Rho, F.Pi, F.Chi, F.Iota;
    if n > 0 {
      var b := Keccak.Rounds(a, n - 1);
      RoundsAreStandard(a, n - 1);
      ThetaIsStandard(b);
      RhoIsStandard(Keccak.Theta(b));
      PiIsStandard(Keccak.Rho(Keccak.Theta(b)));
      ChiIsStandard(Keccak.Pi(Keccak.Rho(Keccak.Theta(b))));
      IotaIsStandard(Keccak.Chi(Keccak.Pi(Keccak.Rho(Keccak.Theta(b)))), n - 1);
    }
  }

  /** The permutation of the implementation is Keccak-f[1600] of the standard, bit by bit. */
  lemma PermutationIsStandard(a: Lanes)
    ensures Flat(KeccakF(a)) == F.Permutation(Flat(a))
  {
    hide Flat, Keccak.Rounds, F.Rounds;
    RoundsAreStandard(a, 24);
  }

  // ---------------------------------------------------------------- the sponge

  lemma DataBitIs(d: seq<byte>, n: nat)
    ensures DataBit(d, n) == (n < 8 * |d| && BitsOf(d)[n])
  {
    hide ToBits, Pow2;
    if n / 8 < |d| {
      BitOfNumber(d[n / 8] as nat, 8, n % 8);
    }
  }

  lemma FlatXor(s: Lanes, d: seq<byte>)
    requires |d| == 136
    ensures Flat(XorBytes(s, d)) == F.Added(Flat(s), BitsOf(d))
  {
    hide DataBit, BitsOf;
    forall n | 0 <= n < 1600 ensures Flat(XorBytes(s, d))[n] == F.Added(Flat(s), BitsOf(d))[n] {
      var k, i := n / 64, n % 64;
      assert 64 * k + i == n;
      DataBitIs(d, n);
      assert XorBytes(s, d)[k][i] == (s[k][i] != DataBit(d, 64 * k + i));
    }
  }

  lemma {:induction false} SpongeIsAbsorbed(s: Lanes, p: seq<byte>)
    requires |p| % 136 == 0
    ensures Flat(Sponge(s, p)) == F.Absorbed(Flat(s), BitsOf(p))
    decreases |p|
  {
    hide Flat, XorBytes, KeccakF, F.Permutation, F.Added, BitsOf;
    if p != [] {
      assert |p| >= 136;
      var block, rest := p[..136], p[136..];
      assert p == block + rest;
      BitsOfConcat(block, rest);
      assert BitsOf(p)[..1088] == BitsOf(block) && BitsOf(p)[1088..] == BitsOf(rest);
      FlatXor(s, block);
      PermutationIsStandard(XorBytes(s, block));
      SpongeIsAbsorbed(KeccakF(XorBytes(s, block)), rest);
    }
  }

  // ---------------------------------------------------------------- the padding

  lemma OctetBits(b: byte)
    ensures forall i :: 0 <= i < 8 ==> BitsOf([b])[i] == (b as nat / Pow2(i) % 2 == 1)
  {
    hide Pow2;
    assert forall i :: 0 <= i < 8 ==> i / 8 == 0 && i % 8 == i;
  }

  lemma PowersOfTwo()
    ensures Pow2(0) == 1 && Pow2(1) == 2 && Pow2(2) == 4 && Pow2(3) == 8
    ensures Pow2(4) == 16 && Pow2(5) == 32 && Pow2(6) == 64 && Pow2(7) == 128
  {
  }

  lemma PaddingOctets()
    ensures BitsOf([0x06]) == [false, true, true, false, false, false, false, false]
    ensures BitsOf([0x86]) == [false, true, true, false, false, false, false, true]
    ensures BitsOf([0x01]) == [true, false, false, false, false, false, false, false]
    ensures BitsOf([0x81]) == [true, false, false, false, false, false, false, true]
    ensures BitsOf([0x80]) == [false, false, false, false, false, false, false, true]
  {
    hide BitsOf;
    OctetList(0x06);
    OctetList(0x86);
    OctetList(0x01);
    OctetList(0x81);
    OctetList(0x80);
  }

  lemma OctetList(b: byte)
    ensures var v := b as nat;
      BitsOf([b]) == [v % 2 == 1, v / 2 % 2 == 1, v / 4 % 2 == 1, v / 8 % 2 == 1, v / 16 % 2 == 1, v / 32 % 2 == 1,
                      v / 64 % 2 == 1, v / 128 % 2 == 1]
  {
    PowersOfTwo();
    OctetBits(b);
    hide BitsOf, Pow2;
    var s := BitsOf([b]);
    assert s == [s[0], s[1], s[2], s[3], s[4], s[5], s[6], s[7]];
  }

  lemma ZeroBits(n: nat)
    ensures BitsOf(ZeroBytes(n)) == F.Falses(8 * n)
  {
    hide Pow2;
    forall i | 0 <= i < 8 * n ensures BitsOf(ZeroBytes(n))[i] == F.Falses(8 * n)[i] {
      DivIs(0, Pow2(i % 8), 0, 0);
    }
  }

  /** The padding of q bytes: the suffix, a one, zeros, and a one in the last bit. */
  lemma PaddingBits(n: nat, suffix: byte)
    requires suffix == 0x06 || suffix == 0x01
    ensures var q := 136 - n % 136;
      BitsOf(Padding(n, suffix))
      == if suffix == 0x06 then [false, true] + [true] + F.Falses(8 * q - 4) + [true]
         else [true] + F.Falses(8 * q - 2) + [true]
  {
    PaddingOctets();
    hide BitsOf;
    var q := 136 - n % 136;
    if q > 1 {
      var z := ZeroBytes(q - 2);
      ZeroBits(q - 2);
      BitsOfConcat([suffix], z);
      BitsOfConcat([suffix] + z, [0x80]);
    }
  }

  lemma PaddedLength(n: nat)
    ensures var q := 136 - n % 136;
      (-2 - (8 * n + 2)) % 1088 == 8 * q - 4 && (-2 - 8 * n) % 1088 == 8 * q - 2
  {
    var k, q := n / 136, 136 - n % 136;
    assert -2 - (8 * n + 2) == (-k - 1) * 1088 + (8 * q - 4);
    assert -2 - 8 * n == (-k - 1) * 1088 + (8 * q - 2);
  }

  lemma PadIsPadded(m: seq<byte>)
    ensures BitsOf(Pad(m, 0x06)) == F.Padded(BitsOf(m) + [false, true])
  {
    var n := |m|;
    PaddedLength(n);
    PaddingBits(n, 0x06);
    BitsOfConcat(m, Padding(n, 0x06));
    hide BitsOf, Padding, F.Falses;
    Regroup(BitsOf(m), [false, true], [true], F.Falses(8 * (136 - n % 136) - 4), [true]);
  }

  lemma KeccakPadIsPadded(m: seq<byte>)
    ensures BitsOf(Pad(m, 0x01)) == F.Padded(BitsOf(m))
  {
    var n := |m|;
    PaddedLength(n);
    PaddingBits(n, 0x01);
    BitsOfConcat(m, Padding(n, 0x01));
    hide BitsOf, Padding, F.Falses;
    Regroup(BitsOf(m), [], [true], F.Falses(8 * (136 - n % 136) - 2), [true]);
  }

  lemma Regroup(a: seq<bool>, b: seq<bool>, c: seq<bool>, d: seq<bool>, e: seq<bool>)
    ensures a + (b + c + d + e) == a + b + c + d + e
    ensures b == [] ==> a + (c + d + e) == a + c + d + e
  {
  }

  // ---------------------------------------------------------------- the digest

  lemma ByteBit(s: Lanes, j: nat, i: nat)
    requires j < 200 && i < 8
    ensures (StateByte(s, j) as nat / Pow2(i) % 2 == 1) == s[j / 8][8 * (j % 8) + i]
  {
    hide ByteOfBits, Pow2, ToBits;
    BitOfNumber(StateByte(s, j) as nat, 8, i);
  }

  lemma SqueezedBits(s: Lanes)
    ensures BitsOf(Squeezed(s)) == Flat(s)[..256]
  {
    hide StateByte, Pow2;
    var d := Squeezed(s);
    forall n | 0 <= n < 256 ensures BitsOf(d)[n] == Flat(s)[n] {
      ByteBit(s, n / 8, n % 8);
      assert n / 8 / 8 == n / 64 && 8 * (n / 8 % 8) + n % 8 == n % 64;
    }
  }

  lemma ZeroStateIsZero()
    ensures Flat(ZeroState()) == F.Falses(1600)
  {
  }

  lemma DigestIsSponge(m: seq<byte>, suffix: byte)
    requires suffix < 0x80
    ensures BitsOf(Digest(m, suffix)) == F.Absorbed(F.Falses(1600), BitsOf(Pad(m, suffix)))[..256]
  {
    hide Squeezed, Sponge, Flat, BitsOf, Pad;
    ZeroStateIsZero();
    hide ZeroState;
    SpongeIsAbsorbed(ZeroState(), Pad(m, suffix));
    SqueezedBits(Sponge(ZeroState(), Pad(m, suffix)));
  }

  /** For every message the digest is that of the standard, bit for bit, for SHA-3 and for the original Keccak. */
  lemma DigestIsStandard(m: seq<byte>)
    ensures BitsOf(Digest(m, 0x06)) == F.Sha3_256(BitsOf(m))
    ensures BitsOf(Digest(m, 0x01)) == F.Keccak512(BitsOf(m))
  {
    hide Digest, BitsOf, Pad, F.Padded, F.Absorbed;
    DigestIsSponge(m, 0x06);
    DigestIsSponge(m, 0x01);
    PadIsPadded(m);
    KeccakPadIsPadded(m);
  }
}
