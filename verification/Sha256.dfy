/** The 256-bit hash object, as far as its approximate logarithm goes. */
module Sha256 {
  import opened Bytes
  import opened Arith
  import opened Bits
  import opened Words
  import opened BigEndian
  import opened DigestShift
  import opened FourBytes
  import opened ApproxLog

  /** The source's table of leading zero bits in a byte, by ranges. */
  function LeadingZeros(c: byte): (z: nat)
    ensures z <= 8
  {
    if c >= 128 then 0 else if c >= 64 then 1 else if c >= 32 then 2 else if c >= 16 then 3
    else if c >= 8 then 4 else if c >= 4 then 5 else if c >= 2 then 6 else if c >= 1 then 7 else 8
  }

  lemma LeadingZerosIs(c: byte)
    requires c != 0
    ensures var z := LeadingZeros(c); z <= 7 && Pow2(7 - z) <= c as nat < 2 * Pow2(7 - z)
  {
    assert Pow2(0) == 1 && Pow2(1) == 2 && Pow2(2) == 4 && Pow2(3) == 8;
    assert Pow2(4) == 16 && Pow2(5) == 32 && Pow2(6) == 64 && Pow2(7) == 128;
  }

  /** i zero bytes, then the byte c, then the rest. */
  ghost predicate FirstByteAt(s: seq<byte>, i: nat) {
    i < |s| && s[i] != 0 && s[..i] == ZeroBytes(i)
  }

  lemma {:induction false} AllZero(s: seq<byte>)
    requires forall k :: 0 <= k < |s| ==> s[k] == 0
    ensures ValueOf(s) == 0
  {
    assert s == ZeroBytes(|s|);
    ValueOfZeros(|s|);
  }

  /** The value of a string by its first non-zero byte. */
  lemma ValueByFirstByte(s: seq<byte>, i: nat)
    requires FirstByteAt(s, i)
    ensures ValueOf(s) == s[i] as nat * Pow256(|s| - 1 - i) + ValueOf(s[i + 1..])
    ensures ValueOf(s[i + 1..]) < Pow256(|s| - 1 - i)
  {
    var rest := s[i + 1..];
    assert s == s[..i] + [s[i]] + rest;
    ValueOfConcat(s[..i] + [s[i]], rest);
    ValueOfSnoc(s[..i], s[i]);
    ValueOfZeros(i);
    ValueBound(rest);
  }

  lemma FirstByteExponent(s: seq<byte>, i: nat)
    requires FirstByteAt(s, i)
    ensures var z := LeadingZeros(s[i]); z <= 7
    ensures ValueOf(s) >= 1 && Log2(ValueOf(s)) == 8 * (|s| - 1 - i) + (7 - LeadingZeros(s[i]))
  {
    FirstByteAtIs(s, i);
    hide *;
    var z, r := LeadingZeros(s[i]), |s| - 1 - i;
    LeadingZerosIs(s[i]);
    ValueByFirstByte(s, i);
    ExponentOf(ValueOf(s), s[i] as nat, ValueOf(s[i + 1..]), 7 - z, r);
  }

  lemma ExponentOf(v: nat, c: nat, rest: nat, k: nat, r: nat)
    requires v == c * Pow256(r) + rest && rest < Pow256(r) && Pow2(k) <= c < 2 * Pow2(k)
    ensures v >= 1 && Log2(v) == 8 * r + k
  {
    hide *;
    Pow256IsPow2(r);
    Pow2Add(k, 8 * r);
    Magnitude(c, rest, Pow2(k), Pow256(r));
    Log2Is(v, k + 8 * r);
  }

  lemma FirstByteAtIs(s: seq<byte>, i: nat)
    requires FirstByteAt(s, i)
    ensures i < |s| && s[i] != 0
  {
  }

  lemma Magnitude(c: nat, rest: nat, p: nat, m: nat)
    requires p <= c < 2 * p && rest < m
    ensures p * m <= c * m + rest < 2 * (p * m)
  {
    MulMono(p, c, m);
    MulStep(c, 2 * p, m);
    assert 2 * p * m == 2 * (p * m);
  }

  // ---------------------------------------------------------------- the window of four bytes

  /** The value followed by three zero bytes, cut after the window. */
  lemma PaddedValue(s: seq<byte>, i: nat)
    requires FirstByteAt(s, i)
    ensures var head, tail := (s + ZeroBytes(3))[..i + 4], (s + ZeroBytes(3))[i + 4..];
      ValueOf(s) * ONE == ValueOf(head) * Pow256(|s| - 1 - i) + ValueOf(tail)
      && ValueOf(tail) < Pow256(|s| - 1 - i)
  {
    assert Pow256(3) == ONE;
    hide ValueOf, Pow256;
    var padded := s + ZeroBytes(3);
    var head, tail := padded[..i + 4], padded[i + 4..];
    ValueOfConcat(s, ZeroBytes(3));
    ValueOfZeros(3);
    assert padded == head + tail;
    ValueOfConcat(head, tail);
    ValueBound(tail);
  }

  /** The four bytes from the first non-zero one on, zeros beyond the end. */
  lemma WindowOfValue(s: seq<byte>, i: nat)
    requires FirstByteAt(s, i)
    ensures Window(s[i], At(s, i + 1), At(s, i + 2), At(s, i + 3)) == ValueOf(s) * ONE / Pow256(|s| - 1 - i)
  {
    hide ValueOf, Pow256, Window;
    var head, tail := (s + ZeroBytes(3))[..i + 4], (s + ZeroBytes(3))[i + 4..];
    PaddedValue(s, i);
    ValueOfHead(s, i);
    DivIs(ValueOf(s) * ONE, Pow256(|s| - 1 - i), ValueOf(head), ValueOf(tail));
  }

  lemma ValueOfHead(s: seq<byte>, i: nat)
    requires FirstByteAt(s, i)
    ensures ValueOf((s + ZeroBytes(3))[..i + 4]) == Window(s[i], At(s, i + 1), At(s, i + 2), At(s, i + 3))
  {
    var a, b, c, d := s[i], At(s, i + 1), At(s, i + 2), At(s, i + 3);
    assert (s + ZeroBytes(3))[..i + 4] == s[..i] + [a] + [b] + [c] + [d];
    ValueOfZeros(i);
    ValueOfSnoc(s[..i], a);
    ValueOfSnoc(s[..i] + [a], b);
    ValueOfSnoc(s[..i] + [a] + [b], c);
    ValueOfSnoc(s[..i] + [a] + [b] + [c], d);
    WindowIs(a, b, c, d);
    hide ValueOf, Window;
  }

  /** The window, shifted so that its top bit is bit 24, is the mantissa. */
  lemma MantissaOfWindow(s: seq<byte>, i: nat)
    requires FirstByteAt(s, i)
    ensures var z := LeadingZeros(s[i]);
      z <= 7 && ValueOf(s) >= 1
      && Shr(Window(s[i], At(s, i + 1), At(s, i + 2), At(s, i + 3)), 7 - z) == Mantissa(ValueOf(s), Log2(ValueOf(s)))
  {
    FirstByteAtIs(s, i);
    FirstByteExponent(s, i);
    MantissaIs(ValueOf(s));
    hide *;
    var z, r := LeadingZeros(s[i]), |s| - 1 - i;
    WindowOfValue(s, i);
    Pow256IsPow2(r);
    Pow2Add(8 * r, 7 - z);
    ShrIs(Window(s[i], At(s, i + 1), At(s, i + 2), At(s, i + 3)), 7 - z);
    DivDiv(ValueOf(s) * ONE, Pow256(r), Pow2(7 - z));
  }

  lemma MantissaIs(v: nat)
    requires v >= 1
    ensures Mantissa(v, Log2(v)) == v * ONE / Pow2(Log2(v))
  {
  }

  lemma ShrIs(a: nat, n: nat)
    ensures Shr(a, n) == a / Pow2(n)
  {
  }

  /** Dropping the leading one and putting the exponent in its place. */
  lemma Assembled(y: nat, nz: nat)
    requires ONE <= y < 2 * ONE
    ensures Or(Xor(y, ONE), nz * ONE) == nz * ONE + (y - ONE)
  {
    OnePower(24);
    assert Pow2(0) == 1;
    hide Pow2, Or, Xor;
    XorTopBit(y - ONE, 24);
    OrCommutes(y - ONE, nz * ONE);
    OrOfMultiple(nz, y - ONE, 24);
  }

  // ---------------------------------------------------------------- the object

  class Hash {
    const bytes: array<byte>

    ghost predicate Valid()
      reads this
    {
      bytes.Length == 32
    }

    ghost function Value(): nat
      reads this, bytes
    {
      ValueOf(bytes[..])
    }

    constructor ()
      ensures Valid() && fresh(bytes)
    {
      bytes := new byte[32];
    }

    /** `operator <`, by `memcmp`. */
    predicate LessThan(o: Hash): (r: bool)
      requires Valid() && o.Valid()
      reads this, bytes, o, o.bytes
      ensures r <==> Value() < o.Value()
    {
      MemcmpIsOrder(bytes[..], o.bytes[..]);
      Memcmp(bytes[..], o.bytes[..]) < 0
    }

    /** The number of leading zero bits. */
    method Clz() returns (lzbits: nat)
      requires Valid()
      ensures Value() == 0 ==> lzbits == 0x100
      ensures Value() != 0 ==> lzbits == 255 - Log2(Value())
      ensures lzbits < 0x100 ==> FirstByteAt(bytes[..], lzbits / 8) && lzbits % 8 == LeadingZeros(bytes[lzbits / 8])
    {
      hide ValueOf, Log2;
      lzbits := 0;
      var i := 0;
      while true
        invariant 0 <= i < 32 && lzbits == 8 * i
        invariant forall k :: 0 <= k < i ==> bytes[k] == 0
        decreases 32 - i
      {
        var c := bytes[i];
        lzbits := lzbits + LeadingZeros(c);
        if c != 0 {
          assert bytes[..][..i] == ZeroBytes(i);
          FirstByteExponent(bytes[..], i);
          break;
        }
        i := i + 1;
        if i >= 32 {
          AllZero(bytes[..]);
          return 0x100;
        }
      }
    }

    method ApproxLog32() returns (x: nat)
      requires Valid()
      ensures x == LogOf(Value())
    {
      hide ValueOf, Log2, Mantissa, Window, LeadingZeros, Or, Xor, Shr;
      var lzbits := Clz();
      if lzbits >= 0x100 {
        return 0;
      }
      var nzbits := 0xFF - lzbits;
      var offset := lzbits / 8;
      ghost var s := bytes[..];
      var y := Window(bytes[offset],
                      if offset + 1 < 32 then bytes[offset + 1] else 0,
                      if offset + 2 < 32 then bytes[offset + 2] else 0,
                      if offset + 3 < 32 then bytes[offset + 3] else 0);
      assert y == Window(s[offset], At(s, offset + 1), At(s, offset + 2), At(s, offset + 3));
      FirstByteExponent(s, offset);
      MantissaOfWindow(s, offset);
      MantissaOf(ValueOf(s));
      assert nzbits % 8 == 7 - LeadingZeros(s[offset]);
      y := Shr(y, nzbits % 8);
      Assembled(y, nzbits);
      y := Xor(y, ONE);
      return Or(y, nzbits * ONE);
    }

    method SetToInverseApproxLog32(x: nat)
      requires Valid() && x < 0x1_0000_0000
      modifies bytes
      ensures Value() == InverseOf(x)
    {
      hide ValueOf, InverseOf, Pow2, Pow256, ShiftedLeft, ShiftedRight;
      var nzbits := x / ONE;
      if nzbits == 0 {
        Clear();
        AllZero(bytes[..]);
        NoInverse(x);
      } else {
        SetLow(x);
        var shifted := new byte[32];
        if nzbits <= 0x18 {
          ShiftR(bytes, shifted, 0x18 - nzbits);
          InverseShiftsRight(x);
        } else {
          ShiftL(bytes, shifted, nzbits - 0x18);
          InverseShiftsLeft(x);
        }
        Assign(shifted);
      }
    }

    /** The leading one and the fraction in the last four bytes, zeros before them. */
    method SetLow(x: nat)
      requires Valid()
      modifies bytes
      ensures Value() == ONE + x % ONE
    {
      Clear();
      bytes[0x1F] := (x % 0x100) as byte;
      bytes[0x1E] := (x / 0x100 % 0x100) as byte;
      bytes[0x1D] := (x / 0x1_0000 % 0x100) as byte;
      bytes[0x1C] := 1;
      hide ValueOf;
      LowWord(bytes[..]);
      FractionBytes(x);
    }

    method Clear()
      requires Valid()
      modifies bytes
      ensures forall k :: 0 <= k < 32 ==> bytes[k] == 0
    {
      for i := 0 to 32
        invariant forall k :: 0 <= k < i ==> bytes[k] == 0
      {
        bytes[i] := 0;
      }
    }

    method Assign(other: array<byte>)
      requires Valid() && other.Length == 32 && other != bytes
      modifies bytes
      ensures bytes[..] == other[..]
    {
      for i := 0 to 32
        invariant forall k :: 0 <= k < i ==> bytes[k] == other[k]
      {
        bytes[i] := other[i];
      }
    }
  }

  /** However two hashes are ordered as bytes, so are their logarithms. */
  lemma LogsAreOrdered(a: Hash, b: Hash)
    requires a.Valid() && b.Valid() && !b.LessThan(a)
    ensures LogOf(a.Value()) <= LogOf(b.Value())
  {
    MemcmpIsOrder(b.bytes[..], a.bytes[..]);
    hide LogOf, ValueOf;
    LogIsMonotone(a.Value(), b.Value());
  }

  lemma NoInverse(x: nat)
    requires x / ONE == 0
    ensures InverseOf(x) == 0
  {
  }

  /** The value of a hash that is zero up to its last four bytes. */
  lemma LowWord(s: seq<byte>)
    requires |s| == 32 && forall k :: 0 <= k < 28 ==> s[k] == 0
    ensures ValueOf(s) == ((s[28] as nat * 256 + s[29] as nat) * 256 + s[30] as nat) * 256 + s[31] as nat
  {
    assert s[..28] == ZeroBytes(28);
    ValueOfZeros(28);
    hide ValueOf;
    assert s == s[..28] + [s[28]] + [s[29]] + [s[30]] + [s[31]];
    ValueOfSnoc(s[..28], s[28]);
    ValueOfSnoc(s[..28] + [s[28]], s[29]);
    ValueOfSnoc(s[..28] + [s[28]] + [s[29]], s[30]);
    ValueOfSnoc(s[..28] + [s[28]] + [s[29]] + [s[30]], s[31]);
  }

  lemma InverseShiftsRight(x: nat)
    requires 0 < x / ONE <= 24
    ensures InverseOf(x) == (ONE + x % ONE) / Pow2(24 - x / ONE)
  {
    var nz := x / ONE;
    OnePower(nz);
    hide Pow2;
    SmallInverse(ONE + x % ONE, Pow2(nz), Pow2(24 - nz));
  }

  lemma FractionBytes(x: nat)
    ensures x % ONE == (x / 0x1_0000 % 0x100 * 256 + x / 0x100 % 0x100) * 256 + x % 0x100
  {
  }

  /** The shift to the left loses nothing. */
  lemma InverseShiftsLeft(x: nat)
    requires 24 < x / ONE < 256
    ensures InverseOf(x) == (ONE + x % ONE) * Pow2(x / ONE - 24) % Pow256(32)
  {
    hide Pow2, Pow256;
    var nz, b := x / ONE, ONE + x % ONE;
    OneIsPow2();
    Pow2Add(24, nz - 24);
    LargeInverse(b, Pow2(nz - 24));
    FitsDigest(b, nz - 24);
  }

  lemma FitsDigest(b: nat, n: nat)
    requires b < 2 * ONE && n <= 231
    ensures b * Pow2(n) % Pow256(32) == b * Pow2(n)
  {
    hide Pow2, Pow256;
    OneIsPow2();
    Pow2Step(25);
    Pow256IsPow2(32);
    Pow2Add(25, n);
    Pow2Mono(25 + n, 256);
    MulStep(b, 2 * ONE, Pow2(n));
    DivIs(b * Pow2(n), Pow256(32), 0, b * Pow2(n));
  }
}
