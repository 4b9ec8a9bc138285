/** Times in microseconds and 64-bit fixed-point network timestamps (section 6 of RFC 5905). */
module Ntp {
  import opened Bytes
  import opened Arith
  import opened Seqs
  import opened BigEndian

  const TWO_31: nat := 0x8000_0000
  const TWO_32: nat := 0x1_0000_0000
  const TWO_64: nat := 0x1_0000_0000_0000_0000
  const MILLION: nat := 1_000_000
  /** Seconds from 1900 to 1970. */
  const EPOCH: nat := 2_208_988_800

  type Word64 = x: int | 0 <= x < 0x1_0000_0000_0000_0000

  // ---------------------------------------------------------------- byte order

  /** The k low bytes of n, most significant first. */
  function BytesOf(n: nat, k: nat): (s: seq<byte>)
    ensures |s| == k
    decreases k
  {
    if k == 0 then [] else BytesOf(n / 256, k - 1) + [(n % 256) as byte]
  }

  lemma {:induction false} ValueOfBytesOf(n: nat, k: nat)
    requires n < Pow256(k)
    ensures ValueOf(BytesOf(n, k)) == n
    decreases k
  {
    if k > 0 {
      ValueOfBytesOf(n / 256, k - 1);
      ValueOfSnoc(BytesOf(n / 256, k - 1), (n % 256) as byte);
    }
  }

  lemma {:induction false} BytesOfValueOf(s: seq<byte>)
    ensures BytesOf(ValueOf(s), |s|) == s
    decreases |s|
  {
    if s != [] {
      var front, last := s[..|s| - 1], s[|s| - 1];
      BytesOfValueOf(front);
      DivIs(ValueOf(s), 256, ValueOf(front), last as nat);
      assert s == front + [last];
    }
  }

  lemma EightBytes()
    ensures Pow256(8) == TWO_64
  {
  }

  function Bswap64(n: Word64): Word64 {
    EightBytes();
    ValueBound(Reversed(BytesOf(n, 8)));
    ValueOf(Reversed(BytesOf(n, 8)))
  }

  lemma Bswap64Twice(n: Word64)
    ensures Bswap64(Bswap64(n)) == n
  {
    EightBytes();
    var s := Reversed(BytesOf(n, 8));
    BytesOfValueOf(s);
    ReversedTwice(BytesOf(n, 8));
    ValueOfBytesOf(n, 8);
  }

  // ---------------------------------------------------------------- the two conversions

  /** Stored in 32 bits. */
  function Low32(x: int): (r: nat)
    ensures r < TWO_32
  {
    x % TWO_32
  }

  /** `((m << 32) + (1 << 31)) / 1000000`, in 64 bits and then in 32. */
  function Fraction64(m: nat): nat {
    Low32((m * TWO_32 % TWO_64 + TWO_31) % TWO_64 / MILLION)
  }

  /** `(f * 1000000 + (1 << 31)) >> 32`, in 64 bits and then in 32. */
  function Micros64(f: nat): nat {
    Low32((f * MILLION % TWO_64 + TWO_31) % TWO_64 / TWO_32)
  }

  /** `(s << 32) + f`. */
  function Pack(s: nat, f: nat): Word64 {
    (s * TWO_32 % TWO_64 + f) % TWO_64
  }

  /** `ntp_timestamp_to_fc_time_point`: microseconds since 1970. */
  function ToTime(netOrder: Word64): int {
    var host := Bswap64(netOrder);
    Low32(Low32(host / TWO_32) - EPOCH) * MILLION + Micros64(Low32(host))
  }

  /** `fc_time_point_to_ntp_timestamp`: of a signed 64-bit count of microseconds. */
  function ToNtp(t: int): Word64 {
    var micros := t % TWO_64;
    Bswap64(Pack(Low32(Low32(micros / MILLION) + EPOCH), Fraction64(micros % MILLION)))
  }

  /** The same without wrap-around. */
  function FractionOf(m: nat): nat {
    (m * TWO_32 + TWO_31) / MILLION
  }

  function MicrosOf(f: nat): nat {
    (f * MILLION + TWO_31) / TWO_32
  }

  lemma FractionFits(m: nat)
    requires m < MILLION
    ensures Fraction64(m) == FractionOf(m) < TWO_32
  {
  }

  lemma MicrosFit(f: nat)
    requires f < TWO_32
    ensures Micros64(f) == MicrosOf(f) <= MILLION
  {
  }

  lemma Packed(s: nat, f: nat)
    requires s < TWO_32 && f < TWO_32
    ensures Pack(s, f) == s * TWO_32 + f && Pack(s, f) / TWO_32 == s && Low32(Pack(s, f)) == f && Low32(s) == s
  {
    DivIs(s * TWO_32 + f, TWO_32, s, f);
  }

  lemma ToTimeOfPacked(s: nat, f: nat)
    requires s < TWO_32 && f < TWO_32
    ensures ToTime(Bswap64(Pack(s, f))) == Low32(s - EPOCH) * MILLION + MicrosOf(f)
  {
    hide Pack, Bswap64, Low32, Micros64, MicrosOf;
    Bswap64Twice(Pack(s, f));
    Packed(s, f);
    MicrosFit(f);
  }

  /** The seconds of a time, and the seconds since 1900 of its timestamp. */
  function SecondsOf(t: int): nat {
    Low32(t % TWO_64 / MILLION)
  }

  function SubSecond(t: int): (m: nat)
    ensures m < MILLION
  {
    t % TWO_64 % MILLION
  }

  lemma ToNtpIs(t: int)
    ensures FractionOf(SubSecond(t)) < TWO_32
    ensures ToNtp(t) == Bswap64(Pack(Low32(SecondsOf(t) + EPOCH), FractionOf(SubSecond(t))))
  {
    hide Pack, Bswap64, Low32, Fraction64, FractionOf;
    FractionFits(SubSecond(t));
  }

  /** One for the microseconds that come back late. */
  function Late(m: nat): nat {
    if (2 * m + 1) % 15625 == 0 then 1 else 0
  }

  /**
    The fraction is taken half a microsecond late and cut off, the microseconds are rounded: what
    was cut off pulls the result back, unless nothing was cut off.
   */
  lemma MicrosOfFraction(m: nat)
    requires m < MILLION
    ensures MicrosOf(FractionOf(m)) == m + Late(m)
  {
    var x := m * TWO_32 + TWO_31;
    var f, cut := x / MILLION, x % MILLION;
    assert x == TWO_31 * (2 * m + 1);
    NothingCut(2 * m + 1);
    assert f * MILLION + TWO_31 == (m + 1) * TWO_32 - cut;
    if cut == 0 {
      DivIs(f * MILLION + TWO_31, TWO_32, m + 1, 0);
    } else {
      DivIs(f * MILLION + TWO_31, TWO_32, m, TWO_32 - cut);
    }
  }

  /** A million is 64 times 15625, and 2^31 has nothing in common with 15625. */
  lemma NothingCut(y: nat)
    ensures TWO_31 * y % MILLION == 0 <==> y % 15625 == 0
  {
    if y % 15625 == 0 {
      assert TWO_31 * y == 33554432 * (y / 15625) * MILLION;
    }
    if TWO_31 * y % MILLION == 0 {
      var k := TWO_31 * y / MILLION;
      assert 33554432 * y == 15625 * k;
      // 33554432 * 9693 == 15625 * 20815559 + 1
      assert y == 15625 * (9693 * k - 20815559 * y);
    }
  }

  /** Adding and taking away the years before 1970 cancels, wrap-around and all. */
  lemma EpochCancels(s: nat)
    requires s < TWO_32
    ensures Low32(Low32(s + EPOCH) - EPOCH) == s && Low32(Low32(s - EPOCH) + EPOCH) == s
  {
  }

  /** Time to timestamp and back, for every signed 64-bit time. */
  lemma TimeRoundTrip(t: int)
    ensures ToTime(ToNtp(t)) == SecondsOf(t) * MILLION + SubSecond(t) + Late(SubSecond(t))
  {
    var s, m := SecondsOf(t), SubSecond(t);
    assert s < TWO_32;
    hide Bswap64, Low32, Fraction64, Micros64, Pack, ToTime, ToNtp, FractionOf, MicrosOf, SecondsOf, SubSecond, Late,
        Gain;
    ToNtpIs(t);
    ToTimeOfPacked(Low32(s + EPOCH), FractionOf(m));
    EpochCancels(s);
    MicrosOfFraction(m);
  }

  lemma TimeInRange(t: int)
    requires 0 <= t < TWO_32 * MILLION
    ensures SecondsOf(t) == t / MILLION && SubSecond(t) == t % MILLION
  {
  }

  /** From 1970 until the seconds leave 32 bits the result is the time itself or one microsecond later. */
  lemma TimeIsKept(t: int)
    requires 0 <= t < TWO_32 * MILLION
    ensures t <= ToTime(ToNtp(t)) <= t + 1
    ensures ToTime(ToNtp(t)) == t + 1 <==> (2 * (t % MILLION) + 1) % 15625 == 0
  {
    TimeRoundTrip(t);
    TimeInRange(t);
    hide *;
  }

  lemma TimeFits(t: int)
    ensures 0 <= SecondsOf(t) * MILLION + SubSecond(t) < TWO_32 * MILLION
  {
  }

  /** Outside that range no signed 64-bit time is kept. */
  lemma TimeIsKeptIff(t: int)
    requires -0x8000_0000_0000_0000 <= t < 0x8000_0000_0000_0000
    ensures t <= ToTime(ToNtp(t)) <= t + 1 <==> 0 <= t < TWO_32 * MILLION
  {
    TimeRoundTrip(t);
    if 0 <= t < TWO_32 * MILLION {
      TimeIsKept(t);
    } else {
      TimeFits(t);
      NotJustBefore(t);
    }
    hide *;
  }

  /** The microsecond before 1970 comes back as the last one of the range, not as midnight. */
  lemma NotJustBefore(t: int)
    ensures t == -1 ==> SecondsOf(t) * MILLION + SubSecond(t) > 1
  {
  }

  // ---------------------------------------------------------------- the other way round

  lemma FractionOfMicros(f: nat)
    requires f < TWO_32
    ensures MicrosOf(f) < MILLION ==> f <= FractionOf(MicrosOf(f)) <= f + 4294
    ensures MicrosOf(f) >= MILLION ==> MicrosOf(f) == MILLION && f <= TWO_32 + FractionOf(0) <= f + 4294
  {
    var x := f * MILLION + TWO_31;
    var m, r := x / TWO_32, x % TWO_32;
    assert x == m * TWO_32 + r;
    var y := m * TWO_32 + TWO_31;
    assert y == f * MILLION + (TWO_32 - r);
    assert y / MILLION >= f && y / MILLION <= f + 4294;
  }

  /** The seconds and microseconds of a time put together from a timestamp. */
  lemma TimeParts(q: nat, m: nat)
    requires q < TWO_32 && m <= MILLION
    ensures m < MILLION ==> SecondsOf(q * MILLION + m) == q && SubSecond(q * MILLION + m) == m
    ensures m == MILLION ==> SecondsOf(q * MILLION + m) == Low32(q + 1) && SubSecond(q * MILLION + m) == 0
  {
    var t := q * MILLION + m;
    assert t % TWO_64 == t;
    if m < MILLION {
      DivIs(t, MILLION, q, m);
    } else {
      DivIs(t, MILLION, q + 1, 0);
    }
  }

  /** How far a timestamp has moved, modulo the range of timestamps. */
  function Gain(before: Word64, after: Word64): int {
    (after - before) % TWO_64
  }

  lemma GainOf(s: nat, f: nat, g: nat)
    requires s < TWO_32 && f < TWO_32 && g < TWO_32
    ensures f <= g ==> Gain(Pack(s, f), Pack(s, g)) == g - f
    ensures Low32(s + 1) < TWO_32
    ensures f <= TWO_32 + g && TWO_32 + g - f < TWO_32 ==> Gain(Pack(s, f), Pack(Low32(s + 1), g)) == TWO_32 + g - f
  {
    Packed(s, f);
    Packed(s, g);
    Packed(Low32(s + 1), g);
    hide Pack;
    if s + 1 == TWO_32 {
      assert Low32(s + 1) == 0;
    } else {
      assert Low32(s + 1) == s + 1;
    }
  }

  lemma EpochCarries(s: nat)
    requires s < TWO_32
    ensures Low32(Low32(Low32(s - EPOCH) + 1) + EPOCH) == Low32(s + 1)
  {
  }

  lemma StampOfPacked(s: nat, f: nat)
    requires s < TWO_32 && f < TWO_32
    ensures var m := MicrosOf(f);
      Bswap64(ToNtp(ToTime(Bswap64(Pack(s, f)))))
      == if m < MILLION then Pack(s, FractionOf(m)) else Pack(Low32(s + 1), FractionOf(0))
  {
    hide Bswap64, Low32, Fraction64, Micros64, Pack, ToTime, ToNtp, FractionOf, MicrosOf, SecondsOf, SubSecond, Late,
        Gain;
    ToTimeOfPacked(s, f);
    MicrosFit(f);
    var q, m := Low32(s - EPOCH), MicrosOf(f);
    var t := q * MILLION + m;
    TimeParts(q, m);
    ToNtpIs(t);
    EpochCancels(s);
    EpochCarries(s);
    Bswap64Twice(Pack(Low32(SecondsOf(t) + EPOCH), FractionOf(SubSecond(t))));
    Low32Is(s);
  }

  lemma Low32Is(s: nat)
    requires s < TWO_32
    ensures Low32(s) == s
  {
  }

  lemma Unpacked(host: Word64)
    ensures host / TWO_32 < TWO_32 && Pack(host / TWO_32, host % TWO_32) == host
  {
    Packed(host / TWO_32, host % TWO_32);
    hide Pack;
  }

  lemma GainOfStamp(s: nat, f: nat)
    requires s < TWO_32 && f < TWO_32
    ensures 0 <= Gain(Pack(s, f), Bswap64(ToNtp(ToTime(Bswap64(Pack(s, f)))))) <= 4294
  {
    hide Bswap64, Low32, Fraction64, Micros64, Pack, ToTime, ToNtp, FractionOf, MicrosOf, SecondsOf, SubSecond, Late,
        Gain;
    StampOfPacked(s, f);
    FractionOfMicros(f);
    if MicrosOf(f) < MILLION {
      FractionFits(MicrosOf(f));
      GainOf(s, f, FractionOf(MicrosOf(f)));
    } else {
      FractionFits(0);
      GainOf(s, f, FractionOf(0));
    }
  }

  /** Timestamp to time and back never goes back and gains less than a microsecond. */
  lemma StampRoundTrip(n: Word64)
    ensures 0 <= Gain(Bswap64(n), Bswap64(ToNtp(ToTime(n)))) <= 4294
  {
    hide Bswap64, Pack, ToTime, ToNtp, Gain;
    Unpacked(Bswap64(n));
    Bswap64Twice(n);
    GainOfStamp(Bswap64(n) / TWO_32, Bswap64(n) % TWO_32);
  }
}
