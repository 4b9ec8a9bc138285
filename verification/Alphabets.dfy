/** The two alphabets as written, and the number that an encoded text stands for. */
module Alphabets {
  import opened Bytes
  import opened Options
  import opened Radix
  import opened Base58
  import opened Base36
  import BigEndian

  /** Byte strings as numbers: digits in base 256, the highest first. */
  lemma {:induction false} NatsAreBigEndian(data: seq<byte>)
    ensures ValueIn(Nats(data), 256) == BigEndian.ValueOf(data)
    decreases |data|
  {
    if data != [] {
      var front := data[..|data| - 1];
      NatsAreBigEndian(front);
      assert Nats(data)[..|data| - 1] == Nats(front);
    }
  }

  /** Changing the base changes neither the number nor how many zeros stand in front. */
  lemma RecodeKeeps(d: seq<nat>, from: nat, to: nat)
    requires from >= 2 && to >= 2 && AllBelow(d, from)
    ensures AllBelow(Recode(d, from, to), to) && ValueIn(Recode(d, from, to), to) == ValueIn(d, from)
    ensures LeadingNoughts(Recode(d, from, to)) == LeadingNoughts(d)
  {
    RecodeRoundTrip(d, from, to);
    var k, v := LeadingNoughts(d), ValueIn(d, from);
    DigitsAreMinimal(v, to);
    hide ValueIn, Digits, LeadingNoughts, AllBelow;
    ValueOfDigits(v, to);
    ValueOfNoughts(k, Digits(v, to), to);
    LeadingNoughtsOf(k, Digits(v, to));
  }

  /** How many bytes equal to a stand in front. */
  function Lead(s: seq<byte>, a: byte): nat {
    if s == [] || s[0] != a then 0 else 1 + Lead(s[1..], a)
  }

  lemma {:induction false} LeadIs(s: seq<byte>, a: byte, d: seq<nat>)
    requires |s| == |d| && forall i :: 0 <= i < |s| ==> (s[i] == a <==> d[i] == 0)
    ensures Lead(s, a) == LeadingNoughts(d)
  {
    if s != [] {
      LeadIs(s[1..], a, d[1..]);
    }
  }

  /** Characters that follow each other in the code, from the first one on. */
  predicate Consecutive(s: string, first: nat) {
    forall i :: 0 <= i < |s| ==> s[i] as nat == first + i
  }

  // ---------------------------------------------------------------- base 58

  /** Without the capitals I and O and the small l. */
  const ALPHABET: string :=
    "123456789" + "ABCDEFGH" + "JKLMN" + "PQRSTUVWXYZ" + "abcdefghijk" + "mnopqrstuvwxyz"

  lemma Runs58()
    ensures Consecutive("123456789", 49) && Consecutive("ABCDEFGH", 65) && Consecutive("JKLMN", 74)
    ensures Consecutive("PQRSTUVWXYZ", 80) && Consecutive("abcdefghijk", 97)
    ensures Consecutive("mnopqrstuvwxyz", 109)
  {
  }

  lemma IndexInRuns(s: seq<string>, d: nat)
    requires |s| == 6
    ensures var t := s[0] + s[1] + s[2] + s[3] + s[4] + s[5];
      var n1 := |s[0]|; var n2 := n1 + |s[1]|; var n3 := n2 + |s[2]|; var n4 := n3 + |s[3]|; var n5 := n4 + |s[4]|;
      && |t| == n5 + |s[5]|
      && (d < |t| ==> t[d] == if d < n1 then s[0][d] else if d < n2 then s[1][d - n1] else if d < n3 then s[2][d - n2]
                              else if d < n4 then s[3][d - n3] else if d < n5 then s[4][d - n4] else s[5][d - n5])
  {
  }

  /** The letters are those of the alphabet, in its order. */
  lemma LettersAreAlphabet(d: nat)
    requires d < 58
    ensures |ALPHABET| == 58 && Letter(d) as int == ALPHABET[d] as int
  {
    Runs58();
    IndexInRuns(["123456789", "ABCDEFGH", "JKLMN", "PQRSTUVWXYZ", "abcdefghijk", "mnopqrstuvwxyz"], d);
  }

  /** The text stands for the number that the bytes stand for, with a '1' for each zero byte in front. */
  lemma EncodedMeans(data: seq<byte>)
    ensures AllLetters(Encoded(data)) && ValueIn(Indices(Encoded(data)), 58) == BigEndian.ValueOf(data)
    ensures Lead(data, 0) == Lead(Encoded(data), '1' as byte)
  {
    var d := Nats(data);
    var e := Recode(d, 256, 58);
    RecodeKeeps(d, 256, 58);
    IndicesOfLetters(e);
    NatsAreBigEndian(data);
    LeadIs(data, 0, d);
    hide Recode, LeadingNoughts, ValueIn, BigEndian.ValueOf, Find, Lead;
    LeadIs(LettersOf(e), 49, e);
  }

  /** The six white-space characters of the C locale. */
  lemma SpacesAre(c: byte)
    ensures IsSpace(c) <==> c == ' ' as byte || c == 9 || c == 10 || c == 11 || c == 12 || c == 13
  {
  }

  predicate AllSpaces(s: seq<byte>) {
    forall i :: 0 <= i < |s| ==> IsSpace(s[i])
  }

  /** Whatever decodes is letters between white space. */
  lemma DecodesOnly(s: seq<byte>) returns (i: nat, j: nat)
    requires Decoded(s).Some?
    ensures i <= j <= |s| && AllSpaces(s[..i]) && AllLetters(s[i..j]) && AllSpaces(s[j..])
    ensures Encoded(Decoded(s).value) == s[i..j]
  {
    hide IsSpace, Spelled, Encoded;
    i := SpacesEnd(s);
    var t := AfterSpaces(s);
    var k := LetterRun(t);
    j := i + k;
    var l := SpacesEnd(t[k..]);
    assert t == s[i..] && t[..k] == s[i..j] && t[k..] == s[j..] && s[j..][..l] == s[j..];
    EncodedOfDecoded(s);
  }

  lemma {:induction false} SpacesEnd(s: seq<byte>) returns (i: nat)
    ensures i <= |s| && AfterSpaces(s) == s[i..] && AllSpaces(s[..i])
  {
    i := 0;
    if s != [] && IsSpace(s[0]) {
      i := SpacesEnd(s[1..]);
      assert s[1..][i..] == s[i + 1..];
      assert s[..i + 1] == [s[0]] + s[1..][..i];
      i := i + 1;
    }
  }

  // ---------------------------------------------------------------- base 36

  const DIGITS: string := "0123456789"
  const SMALL: string := "abcdefghijklmnopqrstuvwxyz"
  const CAPITALS: string := "ABCDEFGHIJKLMNOPQRSTUVWXYZ"

  lemma Runs36()
    ensures |DIGITS| == 10 && |SMALL| == 26 && |CAPITALS| == 26
    ensures Consecutive(DIGITS, 48) && Consecutive(SMALL, 97) && Consecutive(CAPITALS, 65)
  {
    assert Consecutive("abcdefghijklm", 97) && Consecutive("nopqrstuvwxyz", 110);
    assert Consecutive("ABCDEFGHIJKLM", 65) && Consecutive("NOPQRSTUVWXYZ", 78);
    assert SMALL == "abcdefghijklm" + "nopqrstuvwxyz" && CAPITALS == "ABCDEFGHIJKLM" + "NOPQRSTUVWXYZ";
  }

  /** Digits and small letters are written; capitals are read as well, and anything else counts as zero. */
  lemma DigitsAreAlphabet(d: nat, c: byte)
    requires d < 36
    ensures |DIGITS + SMALL| == 36 && Digit(d) as int == (DIGITS + SMALL)[d] as int && DigitOf(Digit(d)) == d
    ensures |DIGITS + CAPITALS| == 36 && forall b: byte :: b as int == (DIGITS + CAPITALS)[d] as int ==> DigitOf(b) == d
    ensures (forall x :: x in DIGITS + SMALL + CAPITALS ==> c as int != x as int) ==> DigitOf(c) == 0
  {
    Runs36();
    if 48 <= c < 58 {
      assert DIGITS[c as nat - 48] in DIGITS + SMALL + CAPITALS;
    } else if 97 <= c < 123 {
      assert SMALL[c as nat - 97] in DIGITS + SMALL + CAPITALS;
    } else if 65 <= c < 91 {
      assert CAPITALS[c as nat - 65] in DIGITS + SMALL + CAPITALS;
    }
  }

  /** The text stands for the number that the bytes stand for, with a '0' for each zero byte in front. */
  lemma Encoded36Means(data: seq<byte>)
    ensures ValueIn(DigitsOfText(Encoded36(data)), 36) == BigEndian.ValueOf(data)
    ensures Lead(data, 0) == Lead(Encoded36(data), '0' as byte)
  {
    var d := Nats(data);
    var e := Recode(d, 256, 36);
    RecodeKeeps(d, 256, 36);
    DigitsOfTextOf(e);
    NatsAreBigEndian(data);
    LeadIs(data, 0, d);
    hide Recode, LeadingNoughts, ValueIn, BigEndian.ValueOf, Lead;
    LeadIs(Text(e), 48, e);
  }
}
