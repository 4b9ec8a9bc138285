/** Byte strings in base 58, most significant digit first, a '1' for every leading zero byte. */
module Base58 {
  import opened Bytes
  import opened Options
  import opened Radix
  import opened Seqs

  // ---------------------------------------------------------------- bytes as digits

  function Nats(s: seq<byte>): (d: seq<nat>)
    ensures |d| == |s| && AllBelow(d, 256)
  {
    seq(|s|, i requires 0 <= i < |s| => s[i] as nat)
  }

  function ToBytes(d: seq<nat>): (s: seq<byte>)
    requires AllBelow(d, 256)
    ensures |s| == |d| && Nats(s) == d
  {
    seq(|d|, i requires 0 <= i < |d| => d[i] as byte)
  }

  lemma ToBytesOfNats(s: seq<byte>)
    ensures ToBytes(Nats(s)) == s
  {
  }

  // ---------------------------------------------------------------- the alphabet

  /** The digits 1 to 9, then the capitals without I and O, then the small letters without l. */
  function Letter(d: nat): (c: byte)
    requires d < 58
    ensures 49 <= c < 123
  {
    if d < 9 then 49 + d as byte
    else if d < 17 then 65 + (d - 9) as byte
    else if d < 22 then 74 + (d - 17) as byte
    else if d < 33 then 80 + (d - 22) as byte
    else if d < 44 then 97 + (d - 33) as byte
    else 109 + (d - 44) as byte
  }

  /** `strchr` in the alphabet, from position k on. */
  function Find(c: byte, k: nat): (r: Option<nat>)
    requires k <= 58
    ensures r.Some? ==> k <= r.value < 58 && Letter(r.value) == c
    decreases 58 - k
  {
    if k == 58 then None else if Letter(k) == c then Some(k) else Find(c, k + 1)
  }

  lemma {:induction false} FindLetter(d: nat, k: nat)
    requires k <= d < 58
    ensures Find(Letter(d), k) == Some(d)
    decreases d - k
  {
    if k < d {
      assert Letter(k) != Letter(d);
      FindLetter(d, k + 1);
    }
  }

  predicate IsLetter(c: byte) {
    Find(c, 0).Some?
  }

  predicate AllLetters(s: seq<byte>) {
    forall i :: 0 <= i < |s| ==> IsLetter(s[i])
  }

  function Indices(s: seq<byte>): (d: seq<nat>)
    requires AllLetters(s)
    ensures |d| == |s| && AllBelow(d, 58)
  {
    seq(|s|, i requires 0 <= i < |s| => Find(s[i], 0).value)
  }

  function LettersOf(d: seq<nat>): (s: seq<byte>)
    requires AllBelow(d, 58)
    ensures |s| == |d|
  {
    seq(|d|, i requires 0 <= i < |d| => Letter(d[i]))
  }

  lemma IndicesOfLetters(d: seq<nat>)
    requires AllBelow(d, 58)
    ensures AllLetters(LettersOf(d)) && Indices(LettersOf(d)) == d
  {
    forall i | 0 <= i < |d| ensures Find(LettersOf(d)[i], 0) == Some(d[i]) {
      FindLetter(d[i], 0);
    }
  }

  lemma LettersOfIndices(s: seq<byte>)
    requires AllLetters(s)
    ensures LettersOf(Indices(s)) == s
  {
  }

  // ---------------------------------------------------------------- the two maps

  function Encoded(data: seq<byte>): seq<byte> {
    RecodeRoundTrip(Nats(data), 256, 58);
    LettersOf(Recode(Nats(data), 256, 58))
  }

  /** `isspace` in the C locale. */
  predicate IsSpace(c: byte) {
    c == SPACE || 9 <= c <= 13
  }

  function AfterSpaces(s: seq<byte>): seq<byte> {
    if s != [] && IsSpace(s[0]) then AfterSpaces(s[1..]) else s
  }

  function LetterRun(s: seq<byte>): (k: nat)
    ensures k <= |s| && AllLetters(s[..k])
  {
    if s == [] || !IsLetter(s[0]) then 0
    else
      var k := 1 + LetterRun(s[1..]);
      assert forall i :: 0 <= i < k ==> s[..k][i] == if i == 0 then s[0] else s[1..][..k - 1][i - 1];
      k
  }

  /** The bytes of a run of letters. */
  function Spelled(s: seq<byte>): seq<byte>
    requires AllLetters(s)
  {
    RecodeRoundTrip(Indices(s), 58, 256);
    ToBytes(Recode(Indices(s), 58, 256))
  }

  /** A C string is decoded when it is one run of letters with white space around it. */
  function Decoded(s: seq<byte>): Option<seq<byte>> {
    var t := AfterSpaces(s);
    var k := LetterRun(t);
    if AfterSpaces(t[k..]) == [] then Some(Spelled(t[..k])) else None
  }

  // ---------------------------------------------------------------- a bijection

  lemma SpelledOfEncoded(data: seq<byte>)
    ensures AllLetters(Encoded(data)) && Spelled(Encoded(data)) == data
  {
    var d := Nats(data);
    RecodeRoundTrip(d, 256, 58);
    IndicesOfLetters(Recode(d, 256, 58));
    RecodeRoundTrip(Recode(d, 256, 58), 58, 256);
    ToBytesOfNats(data);
  }

  lemma EncodedOfSpelled(s: seq<byte>)
    requires AllLetters(s)
    ensures Encoded(Spelled(s)) == s
  {
    RecodeRoundTrip(Indices(s), 58, 256);
    LettersOfIndices(s);
  }

  lemma {:induction false} SkipSpaces(pre: seq<byte>, s: seq<byte>)
    requires forall i :: 0 <= i < |pre| ==> IsSpace(pre[i])
    requires s == [] || !IsSpace(s[0])
    ensures AfterSpaces(pre + s) == s
    decreases |pre|
  {
    if pre == [] {
      assert pre + s == s;
    } else {
      assert (pre + s)[1..] == pre[1..] + s;
      SkipSpaces(pre[1..], s);
    }
  }

  lemma LettersAreVisible(c: byte)
    ensures IsLetter(c) ==> !IsSpace(c) && c != NUL
  {
  }

  lemma {:induction false} RunOf(s: seq<byte>, post: seq<byte>)
    requires AllLetters(s)
    requires post == [] || !IsLetter(post[0])
    ensures LetterRun(s + post) == |s|
    decreases |s|
  {
    if s == [] {
      assert s + post == post;
    } else {
      assert (s + post)[1..] == s[1..] + post;
      RunOf(s[1..], post);
    }
  }

  /** Decoding undoes encoding, whatever white space stands around the text. */
  lemma DecodedOfEncoded(pre: seq<byte>, data: seq<byte>, post: seq<byte>)
    requires forall i :: 0 <= i < |pre| ==> IsSpace(pre[i])
    requires forall i :: 0 <= i < |post| ==> IsSpace(post[i])
    ensures Decoded(pre + (Encoded(data) + post)) == Some(data)
  {
    hide Encoded, Spelled;
    var s := Encoded(data);
    SpelledOfEncoded(data);
    forall c: byte ensures IsLetter(c) ==> !IsSpace(c) {
      LettersAreVisible(c);
    }
    hide Find, IsSpace;
    SkipSpaces(post, []);
    assert post + [] == post;
    if s == [] {
      SkipSpaces(pre + post, []);
      assert pre + (s + post) == pre + post + [];
      assert LetterRun([]) == 0 && [][..0] == s;
    } else {
      assert (s + post)[0] == s[0];
      SkipSpaces(pre, s + post);
      RunOf(s, post);
      assert (s + post)[..|s|] == s && (s + post)[|s|..] == post;
    }
  }

  /** Encoding undoes decoding: the text is the encoding of its bytes, up to the white space. */
  lemma EncodedOfDecoded(s: seq<byte>)
    requires Decoded(s).Some?
    ensures var t := AfterSpaces(s); Encoded(Decoded(s).value) == t[..LetterRun(t)]
  {
    var t := AfterSpaces(s);
    EncodedOfSpelled(t[..LetterRun(t)]);
  }

  /** A text of letters only is the encoding of exactly one byte string. */
  lemma LettersAreCodes(s: seq<byte>, data: seq<byte>)
    requires AllLetters(s)
    ensures Decoded(s) == Some(data) <==> Encoded(data) == s
  {
    hide Encoded, Spelled;
    var spelled := Spelled(s);
    EncodedOfSpelled(s);
    DecodedOfEncoded([], spelled, []);
    DecodedOfEncoded([], data, []);
    assert [] + (s + []) == s && [] + (Encoded(data) + []) == Encoded(data);
  }

  // ---------------------------------------------------------------- the loops

  /** n zero digits. */
  function OnesOf(n: nat): (s: seq<byte>)
    ensures |s| == n
  {
    seq(n, i => Letter(0))
  }

  function DigitLetters(v: nat): seq<byte> {
    DigitsAreMinimal(v, 58);
    LettersOf(Digits(v, 58))
  }

  lemma DigitLettersStep(v: nat)
    ensures v == 0 ==> DigitLetters(v) == []
    ensures v > 0 ==> 0 <= v / 58 < v && v % 58 < 58 && DigitLetters(v) == DigitLetters(v / 58) + [Letter(v % 58)]
  {
    if v > 0 {
      var front := Digits(v / 58, 58);
      DigitsAreMinimal(v / 58, 58);
      DigitsAreMinimal(v, 58);
      assert Digits(v, 58) == front + [v % 58];
    }
  }

  /** The big-endian value is what the reversed copy with a zero sign byte is read as. */
  method Encode(data: seq<byte>) returns (str: seq<byte>)
    ensures str == Encoded(data)
  {
    hide *;
    str := WriteDigits(ValueIn(Nats(data), 256));
    ghost var letters := Reversed(str);
    ghost var k := LeadingNoughts(Nats(data));
    NoneReversed();
    assert Nats(data)[0..] == Nats(data) && [] + letters == letters;
    var p := 0;
    while p < |data| && data[p] == 0
      invariant 0 <= p <= |data| && k == p + LeadingNoughts(Nats(data)[p..])
      invariant Reversed(str) == OnesOf(p) + letters
    {
      ZeroCounted(data, p);
      ReversedOfSnoc(str, Letter(0));
      OneMoreLetter(p, letters);
      str := str + [Letter(0)];
      p := p + 1;
    }
    NoneCounted(data, p);
    str := Reversed(str);
    EncodedIs(data);
  }

  lemma ZeroCounted(data: seq<byte>, p: nat)
    requires p < |data| && data[p] == 0
    ensures LeadingNoughts(Nats(data)[p..]) == 1 + LeadingNoughts(Nats(data)[p + 1..])
  {
    assert Nats(data)[p..][1..] == Nats(data)[p + 1..];
  }

  lemma NoneCounted(data: seq<byte>, p: nat)
    requires p <= |data| && (p < |data| ==> data[p] != 0)
    ensures LeadingNoughts(Nats(data)[p..]) == 0
  {
  }

  lemma OneMoreLetter(p: nat, rest: seq<byte>)
    ensures OnesOf(p + 1) + rest == [Letter(0)] + (OnesOf(p) + rest)
  {
    hide Letter;
    assert OnesOf(p + 1) == [Letter(0)] + OnesOf(p);
  }

  /** The digits of a number, least significant first. */
  method WriteDigits(v: nat) returns (str: seq<byte>)
    ensures Reversed(str) == DigitLetters(v)
  {
    hide *;
    var bn := v;
    str := [];
    NoneReversed();
    assert DigitLetters(v) + [] == DigitLetters(v);
    while bn > 0
      invariant DigitLetters(v) == DigitLetters(bn) + Reversed(str)
    {
      DigitLettersStep(bn);
      var c := bn % 58;
      ghost var front := DigitLetters(bn / 58);
      ReversedOfSnoc(str, Letter(c));
      assert front + [Letter(c)] + Reversed(str) == front + ([Letter(c)] + Reversed(str));
      bn := bn / 58;
      str := str + [Letter(c)];
    }
    DigitLettersStep(0);
    assert [] + Reversed(str) == Reversed(str);
  }

  lemma NoneReversed()
    ensures Reversed<byte>([]) == [] && OnesOf(0) == []
  {
  }

  lemma EncodedIs(data: seq<byte>)
    ensures Encoded(data) == OnesOf(LeadingNoughts(Nats(data))) + DigitLetters(ValueIn(Nats(data), 256))
  {
    DigitsAreMinimal(ValueIn(Nats(data), 256), 58);
    RecodeRoundTrip(Nats(data), 256, 58);
  }

  method Decode(str: seq<byte>) returns (r: Option<seq<byte>>)
    ensures r == Decoded(CString(str))
  {
    hide *;
    var s := CString(str);
    assert s[0..] == s;
    var psz := SkipWhite(s, 0);
    ghost var t := s[psz..];
    DecodedIs(s);
    var k, bn := ReadLetters(s, psz);
    var p := psz + k;
    assert t[k..] == s[p..];
    if p < |s| {
      p := SkipWhite(s, p);
      if p < |s| {
        return None;
      }
    } else {
      NoSpaces();
    }
    DigitsAreMinimal(bn, 256);
    var digits := Digits(bn, 256);
    var zeros := CountOnes(s, psz);
    OnesAreNoughts(t, k);
    SpelledIs(t[..k]);
    return Some(ZeroBytes(zeros) + ToBytes(digits));
  }

  lemma NoSpaces()
    ensures AfterSpaces([]) == []
  {
  }

  lemma DecodedIs(s: seq<byte>)
    ensures var t := AfterSpaces(s);
      var k := LetterRun(t);
      Decoded(s) == if AfterSpaces(t[k..]) == [] then Some(Spelled(t[..k])) else None
  {
  }

  method ReadLetters(s: seq<byte>, start: nat) returns (k: nat, bn: nat)
    requires start <= |s|
    ensures k == LetterRun(s[start..]) && bn == ValueIn(Indices(s[start..][..k]), 58)
  {
    hide *;
    ghost var t := s[start..];
    k, bn := 0, 0;
    NoneRead();
    assert t[..0] == [] && s[start + 0..] == t;
    while start + k < |s| && Find(s[start + k], 0).Some?
      invariant start + k <= |s| && AllLetters(t[..k])
      invariant bn == ValueIn(Indices(t[..k]), 58)
      invariant LetterRun(t) == k + LetterRun(s[start + k..])
    {
      var d := Find(s[start + k], 0).value;
      assert t[..k + 1] == t[..k] + [s[start + k]];
      OneMoreRead(t[..k], s[start + k]);
      RunStep(s, start + k);
      bn := bn * 58 + d;
      k := k + 1;
    }
    RunEnds(s, start + k);
  }

  lemma NoneRead()
    ensures AllLetters([]) && ValueIn(Indices([]), 58) == 0
  {
  }

  lemma OneMoreRead(s: seq<byte>, c: byte)
    requires AllLetters(s) && Find(c, 0).Some?
    ensures AllLetters(s + [c])
    ensures ValueIn(Indices(s + [c]), 58) == ValueIn(Indices(s), 58) * 58 + Find(c, 0).value
  {
    hide Find, ValueIn;
    assert Indices(s + [c]) == Indices(s) + [Find(c, 0).value];
    ValueOfSnoc(Indices(s), Find(c, 0).value, 58);
  }

  lemma RunStep(s: seq<byte>, p: nat)
    requires p < |s| && Find(s[p], 0).Some?
    ensures LetterRun(s[p..]) == 1 + LetterRun(s[p + 1..])
  {
    assert s[p..][1..] == s[p + 1..];
  }

  lemma RunEnds(s: seq<byte>, p: nat)
    requires p <= |s| && (p < |s| ==> Find(s[p], 0).None?)
    ensures LetterRun(s[p..]) == 0
  {
  }

  method SkipWhite(s: seq<byte>, start: nat) returns (p: nat)
    requires start <= |s|
    ensures start <= p <= |s| && s[p..] == AfterSpaces(s[start..])
  {
    p := start;
    while p < |s| && IsSpace(s[p])
      invariant start <= p <= |s| && AfterSpaces(s[p..]) == AfterSpaces(s[start..])
    {
      assert s[p..][1..] == s[p + 1..];
      p := p + 1;
    }
  }

  /** How many '1's a text starts with. */
  function Ones(s: seq<byte>): nat {
    if s != [] && s[0] == Letter(0) then 1 + Ones(s[1..]) else 0
  }

  method CountOnes(s: seq<byte>, start: nat) returns (n: nat)
    requires start <= |s|
    ensures n == Ones(s[start..])
  {
    n := 0;
    while start + n < |s| && s[start + n] == Letter(0)
      invariant start + n <= |s| && Ones(s[start..]) == n + Ones(s[start + n..])
    {
      assert s[start + n..][1..] == s[start + n + 1..];
      n := n + 1;
    }
  }

  lemma {:induction false} OnesAreNoughts(s: seq<byte>, k: nat)
    requires k == LetterRun(s)
    ensures Ones(s) == LeadingNoughts(Indices(s[..k]))
    decreases |s|
  {
    FindLetter(0, 0);
    if s != [] && IsLetter(s[0]) {
      assert Indices(s[..k])[0] == Find(s[0], 0).value;
      assert s[..k][1..] == s[1..][..k - 1];
      assert Indices(s[..k])[1..] == Indices(s[1..][..k - 1]);
      OnesAreNoughts(s[1..], k - 1);
    }
  }

  lemma SpelledIs(s: seq<byte>)
    requires AllLetters(s)
    ensures AllBelow(Digits(ValueIn(Indices(s), 58), 256), 256)
    ensures Spelled(s) == ZeroBytes(LeadingNoughts(Indices(s))) + ToBytes(Digits(ValueIn(Indices(s), 58), 256))
  {
    DigitsAreMinimal(ValueIn(Indices(s), 58), 256);
    RecodeRoundTrip(Indices(s), 58, 256);
  }
}
