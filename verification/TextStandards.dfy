/** UTF-8 and UTF-16 as RFC 3629 and RFC 2781 define them. */
module TextStandards {
  import opened Utf8
  import opened Transcode
  import opened Sanitizer
  import opened Bytes
  import opened Options

  // ---------------------------------------------------------------- RFC 3629

  predicate Tail(b: byte) {
    0x80 <= b <= 0xBF
  }

  /** The octet sequences of the syntax in section 4. */
  predicate InTable(b: seq<byte>) {
    (|b| == 1 && b[0] <= 0x7F)
    || (|b| == 2 && 0xC2 <= b[0] <= 0xDF && Tail(b[1]))
    || (|b| == 3 && Tail(b[2])
        && ((b[0] == 0xE0 && 0xA0 <= b[1] <= 0xBF) || (0xE1 <= b[0] <= 0xEC && Tail(b[1]))
            || (b[0] == 0xED && 0x80 <= b[1] <= 0x9F) || (0xEE <= b[0] <= 0xEF && Tail(b[1]))))
    || (|b| == 4 && Tail(b[2]) && Tail(b[3])
        && ((b[0] == 0xF0 && 0x90 <= b[1] <= 0xBF) || (0xF1 <= b[0] <= 0xF3 && Tail(b[1]))
            || (b[0] == 0xF4 && 0x80 <= b[1] <= 0x8F)))
  }

  /** The payload bits of section 3, side by side. */
  function PointOf(b: seq<byte>): int {
    if |b| == 1 then b[0] as int
    else if |b| == 2 then (b[0] as int - 0xC0) * 64 + (b[1] as int - 0x80)
    else if |b| == 3 then (b[0] as int - 0xE0) * 4096 + (b[1] as int - 0x80) * 64 + (b[2] as int - 0x80)
    else if |b| == 4 then
      (b[0] as int - 0xF0) * 262144 + (b[1] as int - 0x80) * 4096 + (b[2] as int - 0x80) * 64 + (b[3] as int - 0x80)
    else -1
  }

  lemma EncodeIsInTable(cp: nat)
    requires IsCodePointValid(cp)
    ensures InTable(Encode(cp)) && PointOf(Encode(cp)) == cp
  {
    Base64Digits(cp);
    var b := Encode(cp);
    if 0x800 <= cp < 0x10000 {
      assert b[0] as int == 0xE0 + cp / 4096 && b[1] as int == 0x80 + (cp / 64) % 64;
    } else if 0x10000 <= cp {
      assert b[0] as int == 0xF0 + cp / 0x40000 && b[1] as int == 0x80 + (cp / 4096) % 64;
    }
  }

  lemma TableIsEncoded(b: seq<byte>)
    requires InTable(b)
    ensures PointOf(b) >= 0 && IsCodePointValid(PointOf(b)) && Encode(PointOf(b)) == b
  {
    hide Join2, Join3, Join4, Encode;
    if |b| == 1 {
      EncodesAscii(b[0]);
    } else if |b| == 2 {
      JoinIsPositional(b[0] as int, b[1] as int, 0x80, 0x80);
      Encodes2(b[0] as int, b[1] as int);
    } else if |b| == 3 {
      JoinIsPositional(b[0] as int, b[1] as int, b[2] as int, 0x80);
      Encodes3(b[0] as int, b[1] as int, b[2] as int);
    } else {
      JoinIsPositional(b[0] as int, b[1] as int, b[2] as int, b[3] as int);
      Encodes4(b[0] as int, b[1] as int, b[2] as int, b[3] as int);
    }
  }

  /** The decoder accepts exactly the sequences of the table, and reports their code points. */
  lemma AcceptsTable(s: seq<byte>, pos: nat, n: nat)
    requires pos < |s| && 1 <= n && pos + n <= |s|
    ensures InTable(s[pos..pos + n]) ==>
              ValidateNext(s, pos).error == Utf8Ok && ValidateNext(s, pos).next == pos + n
              && ValidateNext(s, pos).codePoint == PointOf(s[pos..pos + n])
    ensures ValidateNext(s, pos).error == Utf8Ok && ValidateNext(s, pos).next == pos + n ==> InTable(s[pos..pos + n])
  {
    hide Encode, ValidateNext, InTable, PointOf;
    var b := s[pos..pos + n];
    if InTable(b) {
      TableIsEncoded(b);
      DecodeUndoesEncode(PointOf(b), s, pos);
    }
    if ValidateNext(s, pos).error == Utf8Ok && ValidateNext(s, pos).next == pos + n {
      EncodeUndoesDecode(s, pos);
      EncodeIsInTable(ValidateNext(s, pos).codePoint);
    }
  }

  /** One encoded code point is accepted by `is_valid_utf8` unless it is one of U+0080 to U+009F. */
  lemma OnePointIsClean(cp: nat)
    requires IsCodePointValid(cp)
    ensures Clean(Encode(cp)) <==> !(0x80 <= cp <= 0x9F)
  {
    hide Encode, ValidateNext;
    if Clean(Encode(cp)) {
      var cps :| EncodesClean(cps, Encode(cp));
      assert cps != [];
      assert EncodeAll(cps) == Encode(cps[0]) + EncodeAll(cps[1..]);
      assert EncodeAll(cps)[0..|Encode(cps[0])|] == Encode(cps[0]) && Encode(cp)[0..|Encode(cp)|] == Encode(cp);
      DecodeUndoesEncode(cp, Encode(cp), 0);
      DecodeUndoesEncode(cps[0], Encode(cp), 0);
    }
    if !IsC1(cp) {
      assert [cp][1..] == [] && Encode(cp) + [] == Encode(cp);
      assert AllValid([cp]) && EncodeAll([cp]) == Encode(cp) + EncodeAll([]);
      assert EncodesClean([cp], Encode(cp));
    }
  }

  /** The sanitiser keeps what the table knows, spells out U+0080 to U+009F and drops any other octet. */
  lemma SanitizeByTable(b: seq<byte>, t: seq<byte>, c: byte)
    ensures InTable(b) ==>
              Sanitize(b + t)
              == (if 0x80 <= PointOf(b) <= 0x9F then UnicodeEscape(PointOf(b)) else b) + Sanitize(t)
    ensures (forall n :: 1 <= n <= |[c] + t| ==> !InTable(([c] + t)[..n])) ==> Sanitize([c] + t) == Sanitize(t)
    ensures Sanitize([]) == []
  {
    hide ValidateNext, InTable, PointOf, UnicodeEscape;
    if InTable(b) {
      NotEmpty(b);
      var s := b + t;
      assert s[0..0 + |b|] == b && s[..|b|] == b && s[|b|..] == t;
      AcceptsTable(s, 0, |b|);
      C1Bounds(PointOf(b));
    }
    var s := [c] + t;
    if forall n :: 1 <= n <= |s| ==> !InTable(s[..n]) {
      if ValidateNext(s, 0).error == Utf8Ok {
        AcceptedIsInTable(s);
        assert false;
      }
      assert s[1..] == t && [] + Sanitize(t) == Sanitize(t);
    }
  }

  lemma AcceptedIsInTable(s: seq<byte>)
    requires s != [] && ValidateNext(s, 0).error == Utf8Ok
    ensures var n := ValidateNext(s, 0).next; 1 <= n <= |s| && InTable(s[..n])
  {
    hide InTable;
    var n := ValidateNext(s, 0).next;
    assert s[0..0 + n] == s[..n];
    AcceptsTable(s, 0, n);
  }

  lemma NotEmpty(b: seq<byte>)
    requires InTable(b)
    ensures b != [] && PointOf(b) >= 0
  {
  }

  lemma C1Bounds(cp: int)
    ensures cp >= 0 ==> (IsC1(cp) <==> 0x80 <= cp <= 0x9F)
  {
  }

  // ---------------------------------------------------------------- RFC 2781

  /** Section 2.1: above U+FFFF, ten bits each of the number less 0x10000. */
  lemma UnitsAre(cp: nat)
    requires IsCodePointValid(cp)
    ensures cp < 0x10000 ==> Units(cp) == [cp as word]
    ensures cp >= 0x10000 ==>
              var u := Units(cp);
              |u| == 2 && u[0] as int == 0xD800 + (cp - 0x10000) / 1024 && u[1] as int == 0xDC00 + (cp - 0x10000) % 1024
  {
  }

  /** Section 2.2. */
  lemma PairIs(lead: word, trail: word, rest: seq<word>)
    ensures 0xD800 <= lead <= 0xDBFF && 0xDC00 <= trail <= 0xDFFF ==>
              PointsOf([lead, trail] + rest)
              == Prepend([0x10000 + (lead as int - 0xD800) * 1024 + (trail as int - 0xDC00)], PointsOf(rest))
    ensures 0xD800 <= lead <= 0xDBFF && !(0xDC00 <= trail <= 0xDFFF) ==> PointsOf([lead, trail] + rest) == None
    ensures 0xD800 <= lead <= 0xDBFF ==> PointsOf([lead]) == None
    ensures 0xDC00 <= trail <= 0xDFFF ==> PointsOf([trail] + rest) == None
    ensures !(0xD800 <= lead <= 0xDFFF) ==> PointsOf([lead] + rest) == Prepend([lead as nat], PointsOf(rest))
  {
    assert ([lead, trail] + rest)[2..] == rest && ([lead] + rest)[1..] == rest;
  }
}
