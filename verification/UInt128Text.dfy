/** Decimal output and radix-aware input of 128-bit numbers. */
module UInt128Text {
  import opened Bytes
  import opened Arith
  import opened Decimal
  import opened Options
  import opened Words
  import opened UInt128
  import opened UInt128Divide

  // ---------------------------------------------------------------- printing

  function Pow10(k: nat): (p: nat)
    ensures p >= 1
  {
    if k == 0 then 1 else 10 * Pow10(k - 1)
  }

  /** The digits still to be written. */
  function Left(n: nat): seq<byte> {
    if n == 0 then [] else DigitsOf(n)
  }

  function DigitByte(d: nat): byte
    requires d < 10
  {
    ZERO + d as byte
  }

  lemma LeftStep(n: nat)
    requires n > 0
    ensures Left(n) == Left(n / 10) + [DigitByte(n % 10)]
  {
    if n < 10 {
      assert [] + [ZERO + n as byte] == [ZERO + n as byte];
    }
  }

  lemma DigitsLeft(n: nat, k: nat)
    requires 0 < n < Pow10(k)
    ensures k > 0 && n / 10 < Pow10(k - 1)
  {
  }

  lemma ThirtyNineDigits()
    ensures W2 <= Pow10(39)
  {
    assert Pow10(13) == 10_000_000_000_000;
    assert Pow10(26) == 10_000_000_000_000 * Pow10(13);
    assert Pow10(39) == 10_000_000_000_000 * Pow10(26);
  }

  /**
    Writes digits backwards into a buffer that outlives the call, from position 126 down. The
    terminator is at 127, where nothing is ever written: the buffer starts out zero.
   */
  method ToText(v: U128, sz: array<byte>) returns (text: seq<byte>)
    requires sz.Length == 129 && sz[127] == NUL
    modifies sz
    ensures text == DigitsOf(v.Value())
    ensures sz[127] == NUL
  {
    hide *;
    if v.IsZero() {
      assert DigitsOf(0) == [ZERO] by { ZeroDigits(); }
      return [ZERO];
    }
    ThirtyNineDigits();
    sz[128] := NUL;
    var ii := new U128(0, 0);
    ii.Set(v);
    var i := WriteDigits(ii, sz);
    assert sz[i..][..127 - i] == sz[i..127];
    NoNulInDigits(sz[i..127]);
    CStringEnds(sz[i..], 127 - i);
    return CString(sz[i..]);
  }

  method WriteDigits(ii: U128, sz: array<byte>) returns (i: nat)
    requires sz.Length == 129 && 0 < ii.Value() < Pow10(39)
    modifies sz, ii
    ensures i < 127 && sz[i..127] == DigitsOf(old(ii.Value()))
    ensures sz[127] == old(sz[127])
  {
    hide *;
    ghost var v := ii.Value();
    i := 127;
    LeftIs(v);
    LeftIs(0);
    assert Left(v) + sz[127..127] == Left(v);
    while !ii.IsZero() && i != 0
      invariant 88 <= i <= 127 && ii.Value() < Pow10(i - 88)
      invariant Left(v) == Left(ii.Value()) + sz[i..127]
      invariant sz[127] == old(sz[127])
      decreases i
    {
      LeftStep(ii.Value());
      DigitsLeft(ii.Value(), i - 88);
      ghost var rest, done, digit := Left(ii.Value() / 10), sz[i..127], DigitByte(ii.Value() % 10);
      var r := LastDigit(ii);
      i := i - 1;
      sz[i] := DigitByte(r);
      assert sz[i..127] == [digit] + done;
      assert rest + [digit] + done == rest + ([digit] + done);
    }
    assert ii.Value() == 0;
    assert Left(0) + sz[i..127] == sz[i..127];
  }

  /** `divide(ii, 10, ii, remainder)`. */
  method LastDigit(ii: U128) returns (r: nat)
    modifies ii
    ensures ii.Value() == old(ii.Value()) / 10 && r == old(ii.Value()) % 10
  {
    var ten := new U128(0, 10);
    var remainder := new U128(0, 0);
    var _ := Divide(ii, ten, ii, remainder);
    var digit := remainder.ToInteger();
    return digit.value;
  }

  lemma NoNulInDigits(s: seq<byte>)
    requires AllDigits(s)
    ensures forall i :: 0 <= i < |s| ==> s[i] != NUL
  {
  }

  lemma ZeroDigits()
    ensures DigitsOf(0) == [ZERO]
  {
  }

  lemma LeftIs(n: nat)
    ensures Left(n) == if n == 0 then [] else DigitsOf(n)
  {
  }

  // ---------------------------------------------------------------- reading

  const UPPER_A: byte := 65
  const LOWER_A: byte := 97
  const LOWER_X: byte := 120

  /** The value of a character as a digit, if it is one in this radix. */
  function DigitValue(ch: byte, radix: nat): Option<nat> {
    var n := if IsUpper(ch) then Some((ch - UPPER_A) as nat + 10)
             else if IsLower(ch) then Some((ch - LOWER_A) as nat + 10)
             else if IsDigit(ch) then Some((ch - ZERO) as nat)
             else None;
    if n.Some? && n.value < radix then n else None
  }

  /** A leading zero means octal, zero and x hexadecimal. */
  function Radix(s: seq<byte>): (r: nat)
    ensures r == 8 || r == 10 || r == 16
  {
    if s == [] || s[0] != ZERO then 10 else if |s| > 1 && s[1] == LOWER_X then 16 else 8
  }

  function AfterPrefix(s: seq<byte>): seq<byte> {
    if Radix(s) == 10 then s else if Radix(s) == 8 then s[1..] else s[2..]
  }

  /** The number read, digit by digit, up to the first character that is not a digit. */
  function Number(s: seq<byte>, radix: nat, acc: nat): nat {
    if s == [] || DigitValue(s[0], radix).None? then acc
    else Number(s[1..], radix, acc * radix + DigitValue(s[0], radix).value)
  }

  function Magnitude(s: seq<byte>): nat {
    Number(AfterPrefix(s), Radix(s), 0)
  }

  function Parse(s: seq<byte>): nat {
    if s != [] && s[0] == MINUS then Wrap(W2 - Magnitude(s[1..])) else Wrap(Magnitude(s))
  }

  method FromText(s: seq<byte>) returns (v: U128)
    ensures fresh(v) && v.Value() == Parse(s)
  {
    hide Wrap, Number, DigitValue;
    v := new U128(0, 0);
    WrapsOnce(0);
    if s == [] {
      NothingRead(10, 0);
      return;
    }
    var radix, minus, i := 10, false, 0;
    if s[0] == MINUS {
      i, minus := 1, true;
    }
    ghost var body := s[i..];
    assert i == 0 ==> body == s;
    if i != |s| {
      if s[i] == ZERO {
        radix := 8;
        i := i + 1;
        if i != |s| && s[i] == LOWER_X {
          radix := 16;
          i := i + 1;
        }
      }
      assert radix == Radix(body) && s[i..] == AfterPrefix(body);
      ReadDigits(v, s, i, radix);
    } else {
      NothingRead(10, 0);
    }
    assert v.Value() == Wrap(Magnitude(body));
    if minus {
      WrapNegative(Magnitude(body));
      v := v.Negated();
    }
  }

  lemma NothingRead(radix: nat, acc: nat)
    ensures Number([], radix, acc) == acc
  {
  }

  lemma WrapNegative(x: nat)
    ensures Wrap(W2 - Wrap(x)) == Wrap(W2 - x)
  {
    ModAddMultiple(x / W2, W2, W2 - x);
    assert x == x / W2 * W2 + x % W2;
  }

  method ReadDigits(v: U128, s: seq<byte>, start: nat, radix: nat)
    requires start <= |s| && radix <= 16 && v.Value() == Wrap(0)
    modifies v
    ensures v.Value() == Wrap(Number(s[start..], radix, 0))
  {
    hide *;
    var i := start;
    ghost var acc: nat := 0;
    var times := new U128(0, radix);
    while i != |s|
      invariant start <= i <= |s| && v.Value() == Wrap(acc) && times.Value() == radix && fresh(times)
      invariant Number(s[start..], radix, 0) == Number(s[i..], radix, acc)
      decreases |s| - i
    {
      NumberStep(s[i..], radix, acc);
      assert s[i..][1..] == s[i + 1..];
      var n := DigitValue(s[i], radix);
      if n.None? {
        return;
      }
      WrapProduct(acc, radix);
      v.MulAssign(times);
      v.AddWord(n.value, acc * radix);
      acc := acc * radix + n.value;
      i := i + 1;
    }
    NothingRead(radix, acc);
    assert s[i..] == [];
  }

  lemma NumberStep(s: seq<byte>, radix: nat, acc: nat)
    requires s != []
    ensures DigitValue(s[0], radix).None? ==> Number(s, radix, acc) == acc
    ensures DigitValue(s[0], radix).Some? ==> DigitValue(s[0], radix).value < radix
    ensures DigitValue(s[0], radix).Some?
      ==> Number(s, radix, acc) == Number(s[1..], radix, acc * radix + DigitValue(s[0], radix).value)
  {
  }

  // ---------------------------------------------------------------- the round trip

  lemma {:induction false} NumberOfDigits(s: seq<byte>, d: byte, acc: nat)
    requires AllDigits(s) && IsDigit(d)
    ensures Number(s + [d], 10, acc) == Number(s, 10, acc) * 10 + (d - ZERO) as nat
  {
    if s == [] {
      assert s + [d] == [d] && [d][1..] == [];
    } else {
      assert (s + [d])[1..] == s[1..] + [d];
      NumberOfDigits(s[1..], d, acc * 10 + (s[0] - ZERO) as nat);
    }
  }

  lemma {:induction false} NumberIsNatOf(s: seq<byte>)
    requires AllDigits(s)
    ensures Number(s, 10, 0) == NatOf(s)
    decreases |s|
  {
    if s != [] {
      var front := s[..|s| - 1];
      NumberIsNatOf(front);
      assert s == front + [s[|s| - 1]];
      NumberOfDigits(front, s[|s| - 1], 0);
    }
  }

  /** A printed number other than zero is read in base ten: the octal rule never applies to it. */
  lemma PrintedIsDecimal(v: nat)
    requires v > 0
    ensures Radix(DigitsOf(v)) == 10 && Magnitude(DigitsOf(v)) == v
  {
    NoLeadingZero(v);
    NatOfDigitsOf(v);
    NumberIsNatOf(DigitsOf(v));
    hide DigitsOf, NatOf, Number;
  }

  lemma PrintedZero()
    ensures Magnitude(DigitsOf(0)) == 0
  {
    assert DigitsOf(0) == [ZERO] && [ZERO][1..] == [];
  }

  /** Printing any number and reading it gives the number, and reading it after a minus sign its negative. */
  lemma RoundTrip(v: nat)
    requires v < W2
    ensures Parse(DigitsOf(v)) == v
    ensures Parse([MINUS] + DigitsOf(v)) == if v == 0 then 0 else W2 - v
  {
    if v == 0 {
      PrintedZero();
    } else {
      PrintedIsDecimal(v);
    }
    WrapsOnce(v);
    WrapsOnce(W2 - v);
    hide Magnitude, Wrap;
    assert ([MINUS] + DigitsOf(v))[1..] == DigitsOf(v);
    assert IsDigit(DigitsOf(v)[0]);
  }
}
