/** What the JSON reader makes of numbers, unquoted words, commas and brackets, in plain characters. */
module JsonTextRead {
  import opened Bytes
  import opened Options
  import opened Decimal
  import opened JsonStrings
  import opened JsonGrammar
  import opened JsonText

  // ---------------------------------------------------------------- numbers

  predicate Digits(s: seq<byte>) {
    s != [] && forall i :: 0 <= i < |s| ==> 48 <= s[i] < 58
  }

  /** What ends a number: neither digit nor letter nor point. */
  predicate EndsNumber(rest: seq<byte>) {
    rest == [] || !(48 <= rest[0] < 58 || 65 <= rest[0] < 91 || 97 <= rest[0] < 123 || rest[0] == 46)
  }

  lemma {:induction false} DigitsScanned(s: seq<byte>, rest: seq<byte>, dot: bool)
    requires AllDigits(s) && (rest == [] || (rest[0] != 46 && !(48 <= rest[0] < 58)))
    ensures NumberChars(s + rest, dot) == Some((s, rest, dot))
    decreases |s|
  {
    if s == [] {
      assert s + rest == rest;
    } else {
      assert (s + rest)[1..] == s[1..] + rest;
      DigitsScanned(s[1..], rest, dot);
      assert [s[0]] + s[1..] == s;
    }
  }

  /** Leading zeros do no harm; 2^64 - 1 is the largest number and -2^63 the smallest. */
  lemma NumbersRead(s: seq<byte>, rest: seq<byte>, depth: nat, reals: Reals)
    requires Digits(s) && EndsNumber(rest) && depth != 0
    ensures Worth(s) >= 0
    ensures ValueFrom(s + rest, depth, reals)
         == if Worth(s) < 0x1_0000_0000_0000_0000 then Parsed(Uint64(Worth(s)), rest) else Fail
    ensures ValueFrom([45] + s + rest, depth, reals)
         == if Worth(s) <= 0x8000_0000_0000_0000 then Parsed(Int64(-Worth(s)), rest) else Fail
  {
    hide StringLiteral, ObjectFrom, ArrayFrom, WordFrom, NumberChars, Worth, NatOf, TokenString, RealValue;
    WorthIsNatOf(s);
    DigitsScanned(s, rest, false);
    NotAPoint(s);
    var t, u := s + rest, [45] + s + rest;
    assert t[0] == s[0] && u[0] == 45 && u[1..] == t;
    DispatchNumber(t, depth, reals);
    DispatchNumber(u, depth, reals);
    hide ValueFrom, SkipSpace;
  }

  lemma NotAPoint(s: seq<byte>)
    requires Digits(s)
    ensures s != [46]
  {
    assert s[0] >= 48;
  }

  lemma DispatchNumber(t: seq<byte>, depth: nat, reals: Reals)
    requires t != [] && depth != 0 && (t[0] == 45 || t[0] == 46 || 48 <= t[0] < 58)
    ensures ValueFrom(t, depth, reals) == NumberFrom(t, reals)
  {
    hide StringLiteral, ObjectFrom, ArrayFrom, WordFrom, NumberFrom;
    assert SkipSpace(t) == Some(t);
  }

  /** With a point: the text itself, or what the conversion to a real says; nothing but a sign or a point fails. */
  lemma PointsRead(s: seq<byte>, f: seq<byte>, rest: seq<byte>, depth: nat, reals: Reals)
    requires Digits(s) && (f == [] || Digits(f)) && EndsNumber(rest) && depth != 0
    ensures var text := s + [46] + f;
      ValueFrom(text + rest, depth, reals) ==
      match reals
      case AsText => Parsed(Str(text), rest)
      case AsNumber(converts) => if converts(text) then Parsed(Real(text), rest) else Fail
    ensures ValueFrom([45] + rest, depth, reals) == Fail && ValueFrom([46] + rest, depth, reals) == Fail
    ensures ValueFrom(s + [46] + f + ([46] + rest), depth, reals) == Fail
  {
    hide NumberChars, TokenString, ValueFrom, NatOf;
    PointScanned(s, f, rest);
    TwoPointsScanned(s, f, rest);
    assert [] + [46] == [46];
    EmptyScanned(rest);
    var text := s + [46] + f;
    DispatchNumber(text + rest, depth, reals);
    DispatchNumber([45] + rest, depth, reals);
    DispatchNumber([46] + rest, depth, reals);
    DispatchNumber(text + ([46] + rest), depth, reals);
    assert ([45] + rest)[1..] == rest;
    assert [] + text == text;
  }

  lemma EmptyScanned(rest: seq<byte>)
    requires EndsNumber(rest)
    ensures NumberChars(rest, false) == Some(([], rest, false))
    ensures NumberChars([46] + rest, false) == Some(([46], rest, true))
  {
    assert ([46] + rest)[1..] == rest;
    assert [46] + [] == [46];
  }

  lemma PointScanned(s: seq<byte>, f: seq<byte>, rest: seq<byte>)
    requires AllDigits(s) && AllDigits(f) && EndsNumber(rest)
    ensures NumberChars(s + [46] + f + rest, false) == Some((s + [46] + f, rest, true))
  {
    hide NumberChars, AllDigits;
    DigitsScanned(f, rest, true);
    PointStep(f + rest);
    DigitsBefore(s, [46] + (f + rest));
    Grouped(s, [46], f, rest);
  }

  lemma TwoPointsScanned(s: seq<byte>, f: seq<byte>, rest: seq<byte>)
    requires AllDigits(s) && AllDigits(f)
    ensures NumberChars(s + [46] + f + ([46] + rest), false) == None
  {
    hide NumberChars, AllDigits;
    SecondPoint(f, rest);
    PointStep(f + ([46] + rest));
    DigitsBefore(s, [46] + (f + ([46] + rest)));
    Grouped(s, [46], f, [46] + rest);
  }

  lemma Grouped(a: seq<byte>, b: seq<byte>, c: seq<byte>, d: seq<byte>)
    ensures a + (b + (c + d)) == a + b + c + d && a + (b + c) == a + b + c
  {
  }

  lemma PointStep(t: seq<byte>)
    ensures NumberChars([46] + t, false) ==
      match NumberChars(t, true)
      case None => None
      case Some(r) => Some(([46] + r.0, r.1, r.2))
  {
    assert ([46] + t)[1..] == t;
  }

  /** Digits in front of anything are scanned first. */
  lemma {:induction false} DigitsBefore(s: seq<byte>, t: seq<byte>)
    requires AllDigits(s)
    ensures NumberChars(s + t, false) ==
      match NumberChars(t, false)
      case None => None
      case Some(r) => Some((s + r.0, r.1, r.2))
    decreases |s|
  {
    if s == [] {
      assert s + t == t;
      if NumberChars(t, false).Some? {
        assert s + NumberChars(t, false).value.0 == NumberChars(t, false).value.0;
      }
    } else {
      assert (s + t)[1..] == s[1..] + t;
      DigitsBefore(s[1..], t);
      if NumberChars(t, false).Some? {
        assert [s[0]] + (s[1..] + NumberChars(t, false).value.0) == s + NumberChars(t, false).value.0;
      }
    }
  }

  lemma {:induction false} SecondPoint(f: seq<byte>, rest: seq<byte>)
    requires AllDigits(f)
    ensures NumberChars(f + ([46] + rest), true) == None
    decreases |f|
  {
    if f == [] {
      assert f + ([46] + rest) == [46] + rest;
    } else {
      assert (f + ([46] + rest))[1..] == f[1..] + ([46] + rest);
      SecondPoint(f[1..], rest);
    }
  }

  /** Digits with a letter behind them are the beginning of an unquoted string. */
  lemma LettersAfterDigits(s: seq<byte>, c: byte, rest: seq<byte>, depth: nat, reals: Reals)
    requires Digits(s) && depth != 0 && (65 <= c < 91 || 97 <= c < 123)
    ensures var token := TokenString([c] + rest);
      && ValueFrom(s + ([c] + rest), depth, reals) == Parsed(Str(s + token.0), token.1)
      && ValueFrom([45] + (s + ([c] + rest)), depth, reals) == Parsed(Str([45] + s + token.0), token.1)
  {
    hide NumberChars, TokenString, ValueFrom, NatOf;
    var t := s + ([c] + rest);
    DigitsScanned(s, [c] + rest, false);
    DispatchNumber(t, depth, reals);
    DispatchNumber([45] + t, depth, reals);
    assert ([45] + t)[1..] == t;
    assert [] + s == s;
  }

  // ---------------------------------------------------------------- unquoted strings

  /** Letters, digits and five other characters are taken as they are; a blank ends the string and is consumed. */
  lemma TokensRead(c: byte, t: seq<byte>)
    ensures IsTokenByte(c) ==> TokenString([c] + t) == ([c] + TokenString(t).0, TokenString(t).1)
    ensures TokenString([92, 116] + t) == ([9] + TokenString(t).0, TokenString(t).1)
    ensures TokenString([92, 110] + t) == ([10] + TokenString(t).0, TokenString(t).1)
    ensures TokenString([92, 114] + t) == ([13] + TokenString(t).0, TokenString(t).1)
    ensures c != 116 && c != 110 && c != 114 ==> TokenString([92, c] + t) == ([c] + TokenString(t).0, TokenString(t).1)
    ensures c == 32 || c == 9 || c == 10 ==> TokenString([c] + t) == ([], t)
    ensures !IsTokenByte(c) && c != 92 && c != 32 && c != 9 && c != 10 ==> TokenString([c] + t) == ([], [c] + t)
    ensures TokenString([]) == ([], []) && TokenString([92]) == ([255], [])
  {
    assert ([c] + t)[1..] == t;
    assert ([92, 116] + t)[2..] == t && ([92, 110] + t)[2..] == t && ([92, 114] + t)[2..] == t;
    assert ([92, c] + t)[2..] == t;
  }

  // ---------------------------------------------------------------- containers

  /** Brackets open and close, commas are stepped over wherever they stand, and at depth zero all fails. */
  lemma BracketsRead(t: seq<byte>, depth: nat, entries: seq<Entry>, reals: Reals)
    ensures ItemsFrom(Ascii("]") + t, depth, reals) == Parsed([], t)
    ensures ItemsFrom(Ascii(",") + t, depth, reals) == ItemsFrom(t, depth, reals)
    ensures MembersFrom(Ascii("}") + t, depth, entries, reals) == Parsed(entries, t)
    ensures MembersFrom(Ascii(",") + t, depth, entries, reals) == MembersFrom(t, depth, entries, reals)
    ensures ItemsFrom([], depth, reals) == Fail && MembersFrom([], depth, entries, reals) == Fail
    ensures ValueFrom(t, 0, reals) == Fail && ValueFrom([], depth, reals) == Fail
  {
    Punctuation();
    assert ([93] + t)[1..] == t && ([44] + t)[1..] == t && ([125] + t)[1..] == t;
    hide Ascii, SkipSpace, StringLiteral, NumberFrom, WordFrom;
    NothingSkipped();
  }

  lemma NothingSkipped()
    ensures SkipSpace([]) == Some([]) && StringLiteral([]) == Fail
  {
  }

  /** A colon stands between key and value, with white space in front of it or not. */
  lemma MembersRead(key: seq<byte>, t: seq<byte>, depth: nat, reals: Reals)
    requires StringLiteral(key + Ascii(":") + t).Parsed? && StringLiteral(key + Ascii(":") + t).rest == Ascii(":") + t
    ensures var k := StringLiteral(key + Ascii(":") + t).value;
      var v := ValueFrom(t, if depth == 0 then 0xFFFF_FFFF else depth - 1, reals);
      MemberFrom(key + Ascii(":") + t, depth, reals) == if v.Fail? then Fail else Parsed(Entry(k, v.value), v.rest)
  {
    Punctuation();
    hide Ascii, StringLiteral, ValueFrom;
    assert ([58] + t)[1..] == t && SkipSpace([58] + t) == Some([58] + t);
  }
}
