/** Reading 128-bit numbers in base 8, 10 and 16, from digits to their value. */
module UInt128Radix {
  import opened Bytes
  import opened Options
  import opened UInt128Text
  import R = Radix

  /** A character that reads as the digit d: 0 to 9, then a to f or A to F. */
  predicate Reads(c: byte, d: nat) {
    (d < 10 && c as nat == '0' as nat + d)
    || (10 <= d < 16 && (c as nat == 'a' as nat + (d - 10) || c as nat == 'A' as nat + (d - 10)))
  }

  /** The digits below the radix, and nothing else. */
  lemma DigitsRead(c: byte, d: nat, radix: nat)
    requires radix <= 16
    ensures Reads(c, d) && d < radix ==> DigitValue(c, radix) == Some(d)
    ensures DigitValue(c, radix).Some? ==> Reads(c, DigitValue(c, radix).value) && DigitValue(c, radix).value < radix
  {
  }

  /** A text of digits in this radix. */
  predicate Spells(s: seq<byte>, d: seq<nat>, radix: nat) {
    |s| == |d| && forall i :: 0 <= i < |s| ==> Reads(s[i], d[i]) && d[i] < radix
  }

  /** A text that no digit of this radix begins. */
  predicate Stops(rest: seq<byte>, radix: nat) {
    rest == [] || forall d :: 0 <= d < radix ==> !Reads(rest[0], d)
  }

  lemma {:induction false} NumberIs(s: seq<byte>, rest: seq<byte>, pre: seq<nat>, d: seq<nat>, radix: nat)
    requires radix <= 16 && Spells(s, d, radix) && Stops(rest, radix)
    ensures Number(s + rest, radix, R.ValueIn(pre, radix)) == R.ValueIn(pre + d, radix)
    decreases |s|
  {
    hide Reads, DigitValue, R.ValueIn;
    if s == [] {
      assert s + rest == rest && pre + d == pre;
      if rest != [] {
        DigitsRead(rest[0], 0, radix);
      }
    } else {
      assert (s + rest)[1..] == s[1..] + rest;
      assert pre + d == pre + [d[0]] + d[1..];
      DigitsRead(s[0], d[0], radix);
      R.ValueOfSnoc(pre, d[0], radix);
      NumberIs(s[1..], rest, pre + [d[0]], d[1..], radix);
    }
  }

  lemma MagnitudeIs(prefix: seq<byte>, s: seq<byte>, rest: seq<byte>, d: seq<nat>, radix: nat)
    requires radix <= 16 && Spells(s, d, radix) && Stops(rest, radix)
    requires var t := prefix + s + rest; Radix(t) == radix && AfterPrefix(t) == s + rest
    ensures Magnitude(prefix + s + rest) == R.ValueIn(d, radix)
  {
    hide Number, Radix, AfterPrefix, Spells, Stops;
    assert [] + d == d && R.ValueIn([], radix) == 0;
    NumberIs(s, rest, [], d, radix);
  }

  lemma PositiveIs(t: seq<byte>)
    requires t == [] || t[0] != '-' as byte
    ensures Parse(t) == Magnitude(t) % 0x1_0000_0000_0000_0000_0000_0000_0000_0000
    ensures Parse(['-' as byte] + t) == (0x1_0000_0000_0000_0000_0000_0000_0000_0000 - Magnitude(t))
                                        % 0x1_0000_0000_0000_0000_0000_0000_0000_0000
  {
    hide Magnitude;
    assert (['-' as byte] + t)[1..] == t;
  }

  /** Zero and x: base sixteen, up to the first character that is no digit. */
  lemma HexadecimalIs(s: seq<byte>, d: seq<nat>, rest: seq<byte>)
    requires Spells(s, d, 16) && Stops(rest, 16)
    ensures Parse(['0' as byte, 'x' as byte] + s + rest)
         == R.ValueIn(d, 16) % 0x1_0000_0000_0000_0000_0000_0000_0000_0000
  {
    hide Spells, Stops, Magnitude, R.ValueIn;
    var t := ['0' as byte, 'x' as byte] + s + rest;
    assert t[2..] == s + rest && t[0] == 48 && t[1] == 120;
    MagnitudeIs(['0' as byte, 'x' as byte], s, rest, d, 16);
    PositiveIs(t);
  }

  /** A zero alone: base eight. */
  lemma OctalIs(s: seq<byte>, d: seq<nat>, rest: seq<byte>)
    requires Spells(s, d, 8) && Stops(rest, 8) && (s == [] && rest != [] ==> rest[0] != 'x' as byte)
    ensures Parse(['0' as byte] + s + rest) == R.ValueIn(d, 8) % 0x1_0000_0000_0000_0000_0000_0000_0000_0000
  {
    var t := ['0' as byte] + s + rest;
    assert t[1..] == s + rest && t[0] == 48;
    assert |t| > 1 ==> t[1] == (s + rest)[0];
    assert s != [] ==> Reads(s[0], d[0]);
    assert Radix(t) == 8;
    hide Spells, Stops, Magnitude, R.ValueIn;
    MagnitudeIs(['0' as byte], s, rest, d, 8);
    PositiveIs(t);
  }

  /** Any other digit in front: base ten. */
  lemma DecimalIs(s: seq<byte>, d: seq<nat>, rest: seq<byte>)
    requires s != [] && s[0] != '0' as byte && Spells(s, d, 10) && Stops(rest, 10)
    ensures Parse(s + rest) == R.ValueIn(d, 10) % 0x1_0000_0000_0000_0000_0000_0000_0000_0000
  {
    var t := [] + s + rest;
    assert t == s + rest && t[0] == s[0] && Reads(s[0], d[0]);
    hide Spells, Stops, Magnitude, R.ValueIn;
    MagnitudeIs([], s, rest, d, 10);
    PositiveIs(t);
  }

  /** The numeral of a number in a base, in small letters. */
  function Numeral(v: nat, radix: nat): (s: seq<byte>)
    requires 2 <= radix <= 16
    ensures |s| == |R.Digits(v, radix)|
  {
    R.DigitsAreMinimal(v, radix);
    seq(|R.Digits(v, radix)|, i requires 0 <= i < |R.Digits(v, radix)| =>
        var d := R.Digits(v, radix)[i]; if d < 10 then '0' as byte + d as byte else 'a' as byte + (d - 10) as byte)
  }

  /** Hexadecimal and octal numerals read back. */
  lemma OtherRadixRoundTrip(v: nat)
    requires v < 0x1_0000_0000_0000_0000_0000_0000_0000_0000
    ensures Parse(['0' as byte, 'x' as byte] + Numeral(v, 16)) == v
    ensures Parse(['0' as byte] + Numeral(v, 8)) == v
  {
    Small(v);
    StopsAtEnd();
    hide *;
    HexadecimalReadsBack(v);
    OctalReadsBack(v);
  }

  lemma Small(v: nat)
    requires v < 0x1_0000_0000_0000_0000_0000_0000_0000_0000
    ensures v % 0x1_0000_0000_0000_0000_0000_0000_0000_0000 == v
  {
  }

  lemma HexadecimalReadsBack(v: nat)
    requires Stops([], 16)
    ensures Parse(['0' as byte, 'x' as byte] + Numeral(v, 16))
         == v % 0x1_0000_0000_0000_0000_0000_0000_0000_0000
  {
    hide *;
    NumeralSpells(v, 16);
    HexadecimalIs(Numeral(v, 16), R.Digits(v, 16), []);
    R.ValueOfDigits(v, 16);
    assert ['0' as byte, 'x' as byte] + Numeral(v, 16) + [] == ['0' as byte, 'x' as byte] + Numeral(v, 16);
  }

  lemma OctalReadsBack(v: nat)
    requires Stops([], 8)
    ensures Parse(['0' as byte] + Numeral(v, 8)) == v % 0x1_0000_0000_0000_0000_0000_0000_0000_0000
  {
    hide *;
    NumeralSpells(v, 8);
    OctalIs(Numeral(v, 8), R.Digits(v, 8), []);
    R.ValueOfDigits(v, 8);
    assert ['0' as byte] + Numeral(v, 8) + [] == ['0' as byte] + Numeral(v, 8);
  }

  lemma StopsAtEnd()
    ensures Stops([], 16) && Stops([], 8)
  {
  }

  lemma NumeralSpells(v: nat, radix: nat)
    requires 2 <= radix <= 16
    ensures Spells(Numeral(v, radix), R.Digits(v, radix), radix)
  {
    R.DigitsAreMinimal(v, radix);
    hide R.Digits;
  }
}
