/** Byte strings in base 36, written backwards into a buffer sized from a bound on their length. */
module Base36 {
  import opened Bytes
  import opened Radix
  import opened Base58

  /** The ten digits, then the small letters. */
  function Digit(d: nat): (c: byte)
    requires d < 36
    ensures c != NUL && (c == ZERO <==> d == 0)
  {
    if d < 10 then ZERO + d as byte else 97 + (d - 10) as byte
  }

  function Text(d: seq<nat>): (s: seq<byte>)
    requires AllBelow(d, 36)
    ensures |s| == |d|
  {
    seq(|d|, i requires 0 <= i < |d| => Digit(d[i]))
  }

  function Encoded36(data: seq<byte>): seq<byte> {
    RecodeRoundTrip(Nats(data), 256, 36);
    Text(Recode(Nats(data), 256, 36))
  }

  /** Either case is read; a character that is neither digit nor letter is logged and counts as zero. */
  function DigitOf(c: byte): (d: nat)
    ensures d < 36
  {
    if IsDigit(c) then (c - ZERO) as nat
    else if IsLower(c) then 10 + (c - 97) as nat
    else if IsUpper(c) then 10 + (c - 65) as nat
    else 0
  }

  function DigitsOfText(s: seq<byte>): (d: seq<nat>)
    ensures |d| == |s| && AllBelow(d, 36)
  {
    seq(|s|, i requires 0 <= i < |s| => DigitOf(s[i]))
  }

  /** How many '0's a text starts with. */
  function ZeroChars(s: seq<byte>): nat {
    if s != [] && s[0] == ZERO then 1 + ZeroChars(s[1..]) else 0
  }

  function Decoded36(s: seq<byte>): seq<byte> {
    DigitsAreMinimal(ValueIn(DigitsOfText(s), 36), 256);
    ZeroBytes(ZeroChars(s)) + ToBytes(Digits(ValueIn(DigitsOfText(s), 36), 256))
  }

  // ---------------------------------------------------------------- each undoes the other

  /** A text whose leading zeros are its '0' characters is decoded by a change of base. */
  lemma DecodedByRecoding(s: seq<byte>)
    requires ZeroChars(s) == LeadingNoughts(DigitsOfText(s))
    ensures Nats(Decoded36(s)) == Recode(DigitsOfText(s), 36, 256)
  {
    DigitsAreMinimal(ValueIn(DigitsOfText(s), 36), 256);
  }

  lemma {:induction false} ZeroCharsOfText(d: seq<nat>)
    requires AllBelow(d, 36)
    ensures ZeroChars(Text(d)) == LeadingNoughts(d)
  {
    if d != [] && d[0] == 0 {
      assert Text(d)[1..] == Text(d[1..]);
      ZeroCharsOfText(d[1..]);
    }
  }

  lemma DigitsOfTextOf(d: seq<nat>)
    requires AllBelow(d, 36)
    ensures DigitsOfText(Text(d)) == d
  {
  }

  lemma DecodedOfEncoded36(data: seq<byte>)
    ensures Decoded36(Encoded36(data)) == data
  {
    var d := Nats(data);
    RecodeRoundTrip(d, 256, 36);
    var t := Recode(d, 256, 36);
    ZeroCharsOfText(t);
    DigitsOfTextOf(t);
    DecodedByRecoding(Text(t));
    hide Decoded36, Recode, DigitsOfText, ZeroChars, LeadingNoughts, Digits, ValueIn;
    assert ToBytes(Nats(Decoded36(Encoded36(data)))) == Decoded36(Encoded36(data));
    assert ToBytes(Nats(data)) == data;
  }

  predicate LowerCase(s: seq<byte>) {
    forall i :: 0 <= i < |s| ==> IsDigit(s[i]) || IsLower(s[i])
  }

  lemma TextOfDigits(s: seq<byte>)
    requires LowerCase(s)
    ensures Text(DigitsOfText(s)) == s
  {
  }

  lemma EncodedIsLowerCase(data: seq<byte>)
    ensures LowerCase(Encoded36(data))
  {
    RecodeRoundTrip(Nats(data), 256, 36);
  }

  /** A text is the encoding of the bytes it decodes to if and only if it is all digits and small letters. */
  lemma EncodedOfDecoded36(s: seq<byte>)
    ensures Encoded36(Decoded36(s)) == s <==> LowerCase(s)
  {
    EncodedIsLowerCase(Decoded36(s));
    if LowerCase(s) {
      var d := DigitsOfText(s);
      TextOfDigits(s);
      ZeroCharsOfText(d);
      DecodedByRecoding(s);
      RecodeRoundTrip(d, 36, 256);
    }
  }

  // ---------------------------------------------------------------- the buffer is large enough

  /** 256^5 < 36^8: eight digits hold five bytes. */
  lemma EightForFive()
    ensures Power(256, 5) < Power(36, 8)
  {
    assert Power(36, 4) == 1679616;
    assert Power(36, 8) == 36 * (36 * (36 * (36 * Power(36, 4))));
    assert Power(256, 5) == 256 * (256 * (256 * (256 * 256)));
  }

  lemma ManyDigits(n: nat, t: nat)
    requires 5 * n > 8 * t
    ensures Power(Power(36, n), 5) >= Power(Power(256, t), 5)
  {
    hide Power;
    EightForFive();
    PowerTimes(36, n, 5);
    PowerTimes(36, 8, t);
    PowerTimes(256, 5, t);
    PowerTimes(256, t, 5);
    PowerOfMore(36, 8 * t, n * 5);
    PowerOfLarger(Power(256, 5), Power(36, 8), t);
  }

  /** 36^n <= v < 256^t leaves n no more than 8/5 of t. */
  lemma DigitsPerByte(n: nat, t: nat, v: nat)
    requires Power(36, n) <= v < Power(256, t)
    ensures 5 * n <= 8 * t
  {
    hide Power;
    if 5 * n > 8 * t {
      ManyDigits(n, t);
      PowerOfLarger(Power(36, n), Power(256, t), 5);
    }
  }

  lemma BufferSuffices(data: seq<byte>)
    ensures LeadingNoughts(Nats(data)) + |Digits(ValueIn(Nats(data), 256), 36)| <= 8 * |data| / 5 + 1
  {
    hide *;
    var d := Nats(data);
    var k, v := LeadingNoughts(d), ValueIn(d, 256);
    LeadingNoughtsSplit(d);
    ValueOfNoughts(k, d[k..], 256);
    DropKeepsBelow(d, k);
    ValueIsBounded(d[k..], 256);
    if v > 0 {
      DigitsCount(v, 36);
      DigitsPerByte(|Digits(v, 36)| - 1, |d| - k, v);
    } else {
      DigitTextStep(0);
      assert DigitText(0) == [];
    }
  }

  lemma DropKeepsBelow(d: seq<nat>, k: nat)
    requires AllBelow(d, 256) && k <= |d|
    ensures AllBelow(d[k..], 256)
  {
  }

  // ---------------------------------------------------------------- the loops

  function DigitText(v: nat): seq<byte> {
    DigitsAreMinimal(v, 36);
    Text(Digits(v, 36))
  }

  lemma DigitTextStep(v: nat)
    ensures |DigitText(v)| == |Digits(v, 36)|
    ensures v == 0 ==> DigitText(v) == []
    ensures v > 0 ==> 0 <= v / 36 < v && v % 36 < 36 && DigitText(v) == DigitText(v / 36) + [Digit(v % 36)]
  {
    DigitsAreMinimal(v, 36);
    if v > 0 {
      DigitsAreMinimal(v / 36, 36);
      assert Digits(v, 36) == Digits(v / 36, 36) + [v % 36];
    }
  }

  function ZeroText(n: nat): (s: seq<byte>)
    ensures |s| == n
  {
    seq(n, i => ZERO)
  }

  lemma Encoded36Is(data: seq<byte>)
    ensures Encoded36(data) == ZeroText(LeadingNoughts(Nats(data))) + DigitText(ValueIn(Nats(data), 256))
    ensures forall i :: 0 <= i < |Encoded36(data)| ==> Encoded36(data)[i] != NUL
  {
    RecodeRoundTrip(Nats(data), 256, 36);
    DigitsAreMinimal(ValueIn(Nats(data), 256), 36);
  }

  lemma NothingToEncode()
    ensures Encoded36([]) == []
  {
  }

  /**
    Digits from position `end` backwards. The division yields the old value, so the loop runs once
    more after the value has become zero, and the guard keeps that turn from writing.
   */
  method WriteBackwards(v: nat, out: array<byte>, end: nat) returns (pos: nat)
    requires |DigitText(v)| <= end < out.Length
    modifies out
    ensures pos == end - |DigitText(v)| && out[pos..end] == DigitText(v)
    ensures out[end] == old(out[end])
  {
    hide *;
    pos := end;
    var value := v;
    var more := true;
    assert DigitText(v) + out[end..end] == DigitText(v);
    while more
      invariant 0 <= pos <= end
      invariant DigitText(v) == DigitText(value) + out[pos..end]
      invariant !more ==> value == 0
      invariant out[end] == old(out[end])
      decreases value, more
    {
      DigitTextStep(value);
      ghost var done, front := out[pos..end], DigitText(value / 36);
      if value != 0 {
        pos := pos - 1;
        out[pos] := Digit(value % 36);
        assert out[pos..end] == [Digit(value % 36)] + done;
        assert front + [Digit(value % 36)] + done == front + ([Digit(value % 36)] + done);
      }
      more := value != 0;
      value := value / 36;
    }
    DigitTextStep(0);
    assert [] + out[pos..end] == out[pos..end];
  }

  method ToBase36(data: seq<byte>) returns (str: seq<byte>)
    ensures str == Encoded36(data)
  {
    hide *;
    if data == [] {
      NothingToEncode();
      return [];
    }
    var out := new byte[8 * |data| / 5 + 2];
    var end := out.Length - 1;
    out[end] := NUL;
    var value := BigNum(data);
    BufferSuffices(data);
    DigitTextStep(value);
    Encoded36Is(data);
    ghost var digits := DigitText(value);
    var pos := WriteBackwards(value, out, end);
    pos := WriteZeros(data, out, pos, end);
    ghost var text := out[pos..end];
    assert text == Encoded36(data);
    str := ReadCString(out, pos, end);
  }

  /** `return &out[pos]`. */
  method ReadCString(out: array<byte>, pos: nat, end: nat) returns (str: seq<byte>)
    requires pos <= end < out.Length && out[end] == NUL
    requires forall i :: 0 <= i < |out[pos..end]| ==> out[pos..end][i] != NUL
    ensures str == out[pos..end]
  {
    hide *;
    ghost var text := out[pos..end];
    assert out[pos..][..end - pos] == text;
    assert forall i :: 0 <= i < end - pos ==> out[pos..][i] == text[i];
    assert out[pos..][end - pos] == NUL;
    CStringEnds(out[pos..], end - pos);
    return CString(out[pos..]);
  }

  /** The bytes as an unsigned number; a zero byte goes in front of a set sign bit. */
  method BigNum(data: seq<byte>) returns (value: nat)
    requires data != []
    ensures value == ValueIn(Nats(data), 256)
  {
    var src := data;
    if data[0] >= 0x80 {
      src := [0] + data;
    }
    SignByte(data);
    hide *;
    return ValueIn(Nats(src), 256);
  }

  /** A '0' for each leading zero byte, in front of what is there. */
  method WriteZeros(data: seq<byte>, out: array<byte>, start: nat, end: nat) returns (pos: nat)
    requires LeadingNoughts(Nats(data)) <= start <= end < out.Length
    modifies out
    ensures pos <= start && out[pos..end] == ZeroText(LeadingNoughts(Nats(data))) + old(out[start..end])
    ensures out[end] == old(out[end])
  {
    hide *;
    ghost var k, digits := LeadingNoughts(Nats(data)), out[start..end];
    var i := 0;
    pos := start;
    CountedFrom(data);
    assert [] + digits == digits;
    while i < |data| && data[i] == 0
      invariant 0 <= i <= |data| && k == i + LeadingNoughts(Nats(data)[i..])
      invariant pos == start - i && out[pos..end] == ZeroText(i) + digits
      invariant out[end] == old(out[end])
    {
      ZeroCounted(data, i);
      ghost var done := out[pos..end];
      pos := pos - 1;
      out[pos] := ZERO;
      assert out[pos..end] == [ZERO] + done;
      OneMoreZero(i, digits);
      i := i + 1;
    }
    NoneCounted(data, i);
  }

  lemma CountedFrom(data: seq<byte>)
    ensures Nats(data)[0..] == Nats(data) && ZeroText(0) == []
  {
  }

  lemma OneMoreZero(i: nat, rest: seq<byte>)
    ensures ZeroText(i + 1) + rest == [ZERO] + (ZeroText(i) + rest)
  {
    assert ZeroText(i + 1) == [ZERO] + ZeroText(i);
  }

  /** The byte put in front of a set sign bit does not change the value. */
  lemma SignByte(data: seq<byte>)
    ensures ValueIn(Nats([0] + data), 256) == ValueIn(Nats(data), 256)
  {
    ValueOfNoughts(1, Nats(data), 256);
    assert Nats([0] + data) == Noughts(1) + Nats(data);
  }

  method FromBase36(str: seq<byte>) returns (data: seq<byte>)
    ensures data == Decoded36(str)
  {
    hide *;
    Decoded36Is(str);
    if str == [] {
      NothingToDecode();
      return [];
    }
    var value, i := 0, |str|;
    assert DigitsOfText(str)[i..] == [] by { NoDigitsLeft(str); }
    NoDigits(36);
    while i > 0
      invariant 0 <= i <= |str| && |DigitsOfText(str)| == |str|
      invariant value == ValueIn(DigitsOfText(str)[i..], 36)
    {
      i := i - 1;
      ReadBackwards(str, i);
      value := value + Power(36, |str| - 1 - i) * DigitOf(str[i]);
    }
    assert DigitsOfText(str)[0..] == DigitsOfText(str);
    var zeros := CountZeros(str);
    DigitsAreMinimal(value, 256);
    return ZeroBytes(zeros) + ToBytes(Digits(value, 256));
  }

  lemma NothingToDecode()
    ensures Decoded36([]) == []
  {
  }

  lemma NoDigitsLeft(s: seq<byte>)
    ensures |DigitsOfText(s)| == |s| && DigitsOfText(s)[|s|..] == []
  {
  }

  lemma Decoded36Is(s: seq<byte>)
    ensures var v := ValueIn(DigitsOfText(s), 36);
      AllBelow(Digits(v, 256), 256) && Decoded36(s) == ZeroBytes(ZeroChars(s)) + ToBytes(Digits(v, 256))
  {
    DigitsAreMinimal(ValueIn(DigitsOfText(s), 36), 256);
  }

  lemma ReadBackwards(s: seq<byte>, i: nat)
    requires i < |s|
    ensures |DigitsOfText(s)| == |s|
    ensures ValueIn(DigitsOfText(s)[i..], 36)
         == ValueIn(DigitsOfText(s)[i + 1..], 36) + Power(36, |s| - 1 - i) * DigitOf(s[i])
  {
    hide ValueIn, Power, DigitOf;
    var d := DigitsOfText(s);
    assert d[i..] == [d[i]] + d[i + 1..];
    ValueOfCons(d[i], d[i + 1..], 36);
  }

  method CountZeros(s: seq<byte>) returns (n: nat)
    ensures n == ZeroChars(s)
  {
    n := 0;
    assert s[0..] == s;
    while n < |s| && s[n] == ZERO
      invariant n <= |s| && ZeroChars(s) == n + ZeroChars(s[n..])
    {
      assert s[n..][1..] == s[n + 1..];
      n := n + 1;
    }
  }
}
