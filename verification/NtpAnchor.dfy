/** Where the scale of the timestamps is anchored, in plain numbers. */
module NtpAnchor {
  import opened Bytes
  import opened Seqs
  import opened BigEndian
  import opened Ntp

  lemma WordFits(b: seq<byte>)
    requires |b| == 8
    ensures 0 <= ValueOf(b) < 0x1_0000_0000_0000_0000
  {
    EightBytes();
    hide ValueOf, Pow256;
    ValueBound(b);
  }

  lemma BswapIs(n: Word64)
    ensures Bswap64(n) == ValueOf(Reversed(BytesOf(n, 8)))
  {
    hide ValueOf, BytesOf, Reversed, Pow256;
  }

  /** The eight bytes of a word, first to last, become last to first. */
  lemma BswapReverses(b: seq<byte>, r: seq<byte>)
    requires |b| == 8 && |r| == 8 && forall i :: 0 <= i < 8 ==> r[i] == b[7 - i]
    ensures 0 <= ValueOf(b) < 0x1_0000_0000_0000_0000 && Bswap64(ValueOf(b)) == ValueOf(r)
  {
    assert Reversed(b) == r;
    hide *;
    WordFits(b);
    BswapIs(ValueOf(b));
    BytesOfValueOf(b);
  }

  /** 1970 is 2208988800 seconds after 1900; half a microsecond is added before the fraction is cut. */
  lemma TimestampIs(t: nat)
    requires t / 1_000_000 + 2_208_988_800 < 0x1_0000_0000
    ensures Bswap64(ToNtp(t)) == (t / 1_000_000 + 2_208_988_800) * 0x1_0000_0000
                                 + (t % 1_000_000 * 0x1_0000_0000 + 0x8000_0000) / 1_000_000
  {
    hide Pack, Bswap64, ToNtp, FractionOf, SecondsOf, SubSecond, Low32;
    SecondsInRange(t);
    var s, m := t / 1_000_000, t % 1_000_000;
    FractionIs(m);
    ToNtpIs(t);
    Packed(s + EPOCH, FractionOf(m));
    Bswap64Twice(Pack(s + EPOCH, FractionOf(m)));
    Low32Is(s + EPOCH);
  }

  lemma SecondsInRange(t: nat)
    requires t / 1_000_000 < 0x1_0000_0000
    ensures SecondsOf(t) == t / 1_000_000 && SubSecond(t) == t % 1_000_000
  {
    TimeInRange(t);
    hide SecondsOf, SubSecond;
  }

  lemma FractionIs(m: nat)
    ensures FractionOf(m) == (m * 0x1_0000_0000 + 0x8000_0000) / 1_000_000
  {
  }

  /** A timestamp from 1970 on, read: the fraction is rounded to a microsecond. */
  lemma TimeIs(s: nat, f: nat)
    requires 2_208_988_800 <= s < 0x1_0000_0000 && f < 0x1_0000_0000
    ensures 0 <= s * 0x1_0000_0000 + f < 0x1_0000_0000_0000_0000
    ensures ToTime(Bswap64(s * 0x1_0000_0000 + f))
         == (s - 2_208_988_800) * 1_000_000 + (f * 1_000_000 + 0x8000_0000) / 0x1_0000_0000
  {
    MicrosAre(f);
    hide Pack, Bswap64, ToTime, MicrosOf, Low32;
    Packed(s, f);
    ToTimeOfPacked(s, f);
    Low32Is(s - EPOCH);
  }

  lemma MicrosAre(f: nat)
    ensures MicrosOf(f) == (f * 1_000_000 + 0x8000_0000) / 0x1_0000_0000
  {
  }

  /** The first moment of 1970, in host order and as the bytes on the wire. */
  lemma EpochIs()
    ensures Bswap64(ToNtp(0)) == 0x83AA_7E80_0000_0863
    ensures ToNtp(0) == ValueOf([0x63, 0x08, 0x00, 0x00, 0x80, 0x7E, 0xAA, 0x83])
  {
    TimestampIs(0);
    hide ToNtp;
    var b: seq<byte> := [0x83, 0xAA, 0x7E, 0x80, 0x00, 0x00, 0x08, 0x63];
    HostOrder(b);
    hide Bswap64;
    Bswap64Twice(ToNtp(0));
    BswapReverses(b, [0x63, 0x08, 0x00, 0x00, 0x80, 0x7E, 0xAA, 0x83]);
  }

  lemma HostOrder(b: seq<byte>)
    requires b == [0x83, 0xAA, 0x7E, 0x80, 0x00, 0x00, 0x08, 0x63]
    ensures ValueOf(b) == 0x83AA_7E80_0000_0863
  {
    hide ValueOf;
    ValueOfSnoc([0x83, 0xAA, 0x7E, 0x80, 0x00, 0x00, 0x08], 0x63);
    ValueOfSnoc([0x83, 0xAA, 0x7E, 0x80, 0x00, 0x00], 0x08);
    ValueOfSnoc([0x83, 0xAA, 0x7E, 0x80, 0x00], 0x00);
    ValueOfSnoc([0x83, 0xAA, 0x7E, 0x80], 0x00);
    assert b == [0x83, 0xAA, 0x7E, 0x80, 0x00, 0x00, 0x08] + [0x63];
    assert [0x83, 0xAA, 0x7E, 0x80, 0x00, 0x00, 0x08] == [0x83, 0xAA, 0x7E, 0x80, 0x00, 0x00] + [0x08];
    assert [0x83, 0xAA, 0x7E, 0x80, 0x00, 0x00] == [0x83, 0xAA, 0x7E, 0x80, 0x00] + [0x00];
    assert [0x83, 0xAA, 0x7E, 0x80, 0x00] == [0x83, 0xAA, 0x7E, 0x80] + [0x00];
    FirstHalf([0x83, 0xAA, 0x7E, 0x80]);
  }

  lemma FirstHalf(b: seq<byte>)
    requires b == [0x83, 0xAA, 0x7E, 0x80]
    ensures ValueOf(b) == 0x83AA_7E80
  {
    assert ValueOf([]) == 0;
    hide ValueOf;
    ValueOfSnoc([0x83, 0xAA, 0x7E], 0x80);
    ValueOfSnoc([0x83, 0xAA], 0x7E);
    ValueOfSnoc([0x83], 0xAA);
    ValueOfSnoc([], 0x83);
    assert b == [0x83, 0xAA, 0x7E] + [0x80] && [0x83, 0xAA, 0x7E] == [0x83, 0xAA] + [0x7E];
    assert [0x83, 0xAA] == [0x83] + [0xAA] && [0x83] == [] + [0x83];
  }
}
