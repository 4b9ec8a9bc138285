/**
  The SHA3-256 encoder: bytes are mixed into the state one at a time, over any number of writes,
  and the result is the sponge of the padded message (sections 4 and 6.1 of FIPS 202).
 */
module Sha3 {
  import opened Bytes
  import opened Bits
  import opened Keccak

  const RATE := 136

  // ---------------------------------------------------------------- the sponge

  /** Bit n of a string of bytes, zero beyond its end. */
  function DataBit(d: seq<byte>, n: nat): bool {
    n / 8 < |d| && ToBits(d[n / 8] as nat, 8)[n % 8]
  }

  /** A state with a string of bytes added from its start: S xor (P || 0..0). */
  function XorBytes(s: Lanes, d: seq<byte>): Lanes {
    seq(25, k requires 0 <= k < 25 => XorLane(s[k], d, k))
  }

  function XorLane(lane: Lane, d: seq<byte>, k: nat): Lane {
    seq(64, i requires 0 <= i < 64 => lane[i] != DataBit(d, 64 * k + i))
  }

  function ZeroState(): Lanes {
    seq(25, i => Zeros(64))
  }

  /** Absorbs the whole blocks of p. */
  function Sponge(s: Lanes, p: seq<byte>): Lanes
    decreases |p|
  {
    if |p| < RATE then s else Sponge(Absorb(s, p[..RATE]), p[RATE..])
  }

  function Absorb(s: Lanes, block: seq<byte>): Lanes {
    KeccakF(XorBytes(s, block))
  }

  /** Domain suffix, then pad10*1: a one, zeros, and a one in the last bit of the block. */
  function Padding(n: nat, suffix: byte): (p: seq<byte>)
    requires suffix < 0x80
    ensures 1 <= |p| <= RATE && (n + |p|) % RATE == 0
  {
    if n % RATE == RATE - 1 then [suffix + 0x80] else [suffix] + ZeroBytes(RATE - 2 - n % RATE) + [0x80]
  }

  function Pad(m: seq<byte>, suffix: byte): (p: seq<byte>)
    requires suffix < 0x80
    ensures |p| % RATE == 0
  {
    m + Padding(|m|, suffix)
  }

  /** Byte j of the state. */
  function StateByte(s: Lanes, j: nat): byte
    requires j < 200
  {
    ByteOfBits(s[j / 8][8 * (j % 8)..8 * (j % 8) + 8])
  }

  function ByteOfBits(b: seq<bool>): (v: byte)
    requires |b| == 8
    ensures ToBits(v as nat, 8) == b
  {
    FromBitsBound(b);
    assert Pow2(8) == 256 by {
      assert Pow2(4) == 16 && Pow2(8) == 16 * Pow2(4);
    }
    ToBitsOfFromBits(b);
    FromBits(b) as byte
  }

  /** The first 32 bytes of the state. */
  function Squeezed(s: Lanes): seq<byte> {
    seq(32, j requires 0 <= j < 32 => StateByte(s, j))
  }

  /** The hash of a message. */
  function Digest(m: seq<byte>, suffix: byte): seq<byte>
    requires suffix < 0x80
  {
    Squeezed(Sponge(ZeroState(), Pad(m, suffix)))
  }

  // ---------------------------------------------------------------- a message absorbed so far

  /** The state when m has been written and not finished: whole blocks absorbed, the rest mixed in. */
  function StateOf(m: seq<byte>): Lanes {
    var n := |m| - |m| % RATE;
    XorBytes(Sponge(ZeroState(), m[..n]), m[n..])
  }

  lemma {:induction false} SpongeConcat(s: Lanes, a: seq<byte>, b: seq<byte>)
    requires |a| % RATE == 0
    ensures Sponge(s, a + b) == Sponge(Sponge(s, a), b)
    decreases |a|
  {
    hide Absorb;
    if a == [] {
      assert a + b == b;
    } else {
      assert |a| >= RATE;
      assert (a + b)[..RATE] == a[..RATE] && (a + b)[RATE..] == a[RATE..] + b;
      SpongeConcat(Absorb(s, a[..RATE]), a[RATE..], b);
    }
  }

  /** `bytes[j] ^= b`. */
  function XorByteAt(s: Lanes, j: nat, b: byte): Lanes
    requires j < 200
  {
    s[j / 8 := XorOctet(s[j / 8], j % 8, b)]
  }

  function XorOctet(lane: Lane, p: nat, b: byte): Lane
    requires p < 8
  {
    seq(64, i requires 0 <= i < 64 => lane[i] != (i / 8 == p && ToBits(b as nat, 8)[i % 8]))
  }

  lemma BitSplit(k: nat, i: nat)
    requires i < 64
    ensures (64 * k + i) / 8 == 8 * k + i / 8 && (64 * k + i) % 8 == i % 8
  {
  }

  /** Adding one more byte at its place is adding the longer string. */
  lemma XorOneMore(s: Lanes, d: seq<byte>, b: byte)
    requires |d| < 200
    ensures XorByteAt(XorBytes(s, d), |d|, b) == XorBytes(s, d + [b])
  {
    hide ToBits;
    var l, r := XorByteAt(XorBytes(s, d), |d|, b), XorBytes(s, d + [b]);
    forall k | 0 <= k < 25 ensures l[k] == r[k] {
      forall i | 0 <= i < 64 ensures l[k][i] == r[k][i] {
        BitSplit(k, i);
        var n := 8 * k + i / 8;
        if k == |d| / 8 {
          assert n == |d| <==> i / 8 == |d| % 8;
        } else {
          assert n != |d|;
        }
        assert n < |d| ==> (d + [b])[n] == d[n];
      }
    }
  }

  lemma XorNothing(s: Lanes)
    ensures XorBytes(s, []) == s
  {
    var r := XorBytes(s, []);
    forall k | 0 <= k < 25 ensures r[k] == s[k] {
      forall i | 0 <= i < 64 ensures r[k][i] == s[k][i] {
        assert !DataBit([], 64 * k + i);
      }
    }
  }

  /** A zero byte changes nothing. */
  lemma XorZeroByte(s: Lanes, j: nat)
    requires j < 200
    ensures XorByteAt(s, j, 0) == s
  {
    ToBitsOfZero(8);
    var lane := XorOctet(s[j / 8], j % 8, 0);
    assert forall i :: 0 <= i < 64 ==> lane[i] == s[j / 8][i];
    assert lane == s[j / 8];
  }

  /** One byte written: mixed in, and the block absorbed when it is full. */
  lemma OneByteWritten(m: seq<byte>, b: byte)
    ensures var s := XorByteAt(StateOf(m), |m| % RATE, b);
      StateOf(m + [b]) == if |m| % RATE == RATE - 1 then KeccakF(s) else s
  {
    hide XorByteAt, XorBytes, KeccakF, Sponge;
    var n := |m| - |m| % RATE;
    var rest := m[n..];
    var base := Sponge(ZeroState(), m[..n]);
    XorOneMore(base, rest, b);
    var m' := m + [b];
    if |m| % RATE == RATE - 1 {
      assert |m'| % RATE == 0 && |m'| == n + RATE;
      assert m'[..n + RATE] == m[..n] + (rest + [b]) && m'[n + RATE..] == [];
      SpongeConcat(ZeroState(), m[..n], rest + [b]);
      OneBlock(base, rest + [b]);
      XorNothing(Sponge(ZeroState(), m'));
      assert m'[..|m'|] == m';
    } else {
      assert |m'| - |m'| % RATE == n;
      assert m'[..n] == m[..n] && m'[n..] == rest + [b];
    }
  }

  lemma OneBlock(s: Lanes, p: seq<byte>)
    requires |p| == RATE
    ensures Sponge(s, p) == KeccakF(XorBytes(s, p))
  {
    hide KeccakF, XorBytes;
    assert p[..RATE] == p && p[RATE..] == [];
  }

  // ---------------------------------------------------------------- finishing

  lemma {:induction false} XorZeroBytes(s: Lanes, d: seq<byte>, n: nat)
    requires |d| + n <= 200
    ensures XorBytes(s, d + ZeroBytes(n)) == XorBytes(s, d)
    decreases n
  {
    hide XorBytes, XorByteAt;
    if n == 0 {
      assert d + ZeroBytes(0) == d;
    } else {
      XorZeroBytes(s, d, n - 1);
      XorOneMore(s, d + ZeroBytes(n - 1), 0);
      XorZeroByte(XorBytes(s, d), |d| + n - 1);
      assert d + ZeroBytes(n - 1) + [0] == d + ZeroBytes(n);
    }
  }

  lemma {:induction false} HighBit(a: nat, k: nat)
    requires a < Pow2(k)
    ensures ToBits(a, k + 1) == ToBits(a, k) + [false]
    ensures ToBits(a + Pow2(k), k + 1) == ToBits(a, k) + [true]
    decreases k
  {
    if k > 0 {
      var p := Pow2(k - 1);
      assert (a + 2 * p) / 2 == a / 2 + p && (a + 2 * p) % 2 == a % 2;
      HighBit(a / 2, k - 1);
    } else {
      assert ToBits(0, 1) == [false] && ToBits(1, 1) == [true];
    }
  }

  lemma TopBitAdds(a: byte)
    requires a < 0x80
    ensures forall i :: 0 <= i < 8 ==>
              ToBits(a as nat + 0x80, 8)[i] == (ToBits(a as nat, 8)[i] != ToBits(0x80, 8)[i])
  {
    hide ToBits;
    HighBitOfByte(a as nat);
    HighBitOfByte(0);
    ToBitsOfZero(7);
  }

  lemma HighBitOfByte(a: nat)
    requires a < 0x80
    ensures ToBits(a, 8) == ToBits(a, 7) + [false] && ToBits(a + 0x80, 8) == ToBits(a, 7) + [true]
  {
    hide ToBits;
    assert Pow2(7) == 0x80 by {
      assert Pow2(4) == 16 && Pow2(7) == 8 * Pow2(4);
    }
    HighBit(a, 7);
  }

  /** When the suffix falls on the last byte of the block, both go into one byte. */
  lemma XorTwice(s: Lanes, j: nat, a: byte)
    requires j < 200 && a < 0x80
    ensures XorByteAt(XorByteAt(s, j, a), j, 0x80) == XorByteAt(s, j, a + 0x80)
  {
    TopBitAdds(a);
    hide ToBits;
    var l := XorOctet(XorOctet(s[j / 8], j % 8, a), j % 8, 0x80);
    var r := XorOctet(s[j / 8], j % 8, a + 0x80);
    assert forall i :: 0 <= i < 64 ==> l[i] == r[i];
    assert l == r;
  }

  /** The two bytes mixed in at the end are the padding. */
  lemma XorPadding(s: Lanes, d: seq<byte>, suffix: byte)
    requires |d| < RATE && suffix < 0x80
    ensures XorByteAt(XorByteAt(XorBytes(s, d), |d|, suffix), RATE - 1, 0x80) == XorBytes(s, d + Padding(|d|, suffix))
  {
    hide XorByteAt, XorBytes, ZeroBytes;
    if |d| == RATE - 1 {
      XorTwice(XorBytes(s, d), |d|, suffix);
      XorOneMore(s, d, suffix + 0x80);
    } else {
      var z := ZeroBytes(RATE - 2 - |d|);
      XorOneMore(s, d, suffix);
      XorZeroBytes(s, d + [suffix], |z|);
      XorOneMore(s, d + [suffix] + z, 0x80);
      assert d + [suffix] + z + [0x80] == d + Padding(|d|, suffix);
    }
  }

  /** Padding goes after the unabsorbed tail. */
  lemma PadSplit(m: seq<byte>, n: nat, suffix: byte)
    requires suffix < 0x80 && n == |m| - |m| % RATE
    ensures n % RATE == 0 && |m[n..]| < RATE && |m[n..]| == |m| % RATE
    ensures |m[n..] + Padding(|m[n..]|, suffix)| == RATE
    ensures Pad(m, suffix) == m[..n] + (m[n..] + Padding(|m[n..]|, suffix))
  {
    assert Padding(|m[n..]|, suffix) == Padding(|m|, suffix);
    hide Padding;
    assert m[..n] + m[n..] == m;
  }

  /** The final state is the sponge of the padded message. */
  lemma FinishedIsSponge(m: seq<byte>, suffix: byte)
    requires suffix < 0x80
    ensures KeccakF(XorByteAt(XorByteAt(StateOf(m), |m| % RATE, suffix), RATE - 1, 0x80))
            == Sponge(ZeroState(), Pad(m, suffix))
  {
    var n := |m| - |m| % RATE;
    assert StateOf(m) == XorBytes(Sponge(ZeroState(), m[..n]), m[n..]);
    hide *;
    var base := Sponge(ZeroState(), m[..n]);
    PadSplit(m, n, suffix);
    XorPadding(base, m[n..], suffix);
    var last := m[n..] + Padding(|m[n..]|, suffix);
    OneBlock(base, last);
    SpongeConcat(ZeroState(), m[..n], last);
  }
}
