/**
  JSON string literals: `escape_string` and the legacy reader `stringFromStream`.

  The reader does not decode \u00xx, so what comes back is `Respell(s)`, and it is s
  exactly on the plain strings.
 */
module JsonStrings {
  import opened Bytes
  import opened Utf8
  import opened Sanitizer

  const LOWER_N: byte := 110
  const LOWER_R: byte := 114
  const LOWER_T: byte := 116

  // ---------------------------------------------------------------- writing

  /** The control characters written as \u00xx whether or not control characters are escaped. */
  predicate IsHidden(b: byte) {
    (b < SPACE && b != TAB && b != LF && b != CR) || b == DEL
  }

  function EscapeByte(b: byte, escapeControls: bool): (r: seq<byte>)
    ensures 1 <= |r|
    ensures b >= 0x80 ==> r == [b]
    ensures b < 0x80 ==> forall i :: 0 <= i < |r| ==> r[i] < 0x80
    ensures escapeControls ==> forall i :: 0 <= i < |r| ==> SPACE <= r[i] != DEL
  {
    if IsHidden(b) then UnicodeEscape(b as int)
    else if escapeControls && b == TAB then [BACKSLASH, LOWER_T]
    else if escapeControls && b == LF then [BACKSLASH, LOWER_N]
    else if escapeControls && b == CR then [BACKSLASH, LOWER_R]
    else if escapeControls && (b == BACKSLASH || b == QUOTE) then [BACKSLASH, b]
    else [b]
  }

  function EscapeBytes(s: seq<byte>, escapeControls: bool): seq<byte> {
    if s == [] then [] else EscapeByte(s[0], escapeControls) + EscapeBytes(s[1..], escapeControls)
  }

  /** The literal's contents: escaped byte by byte, then sanitised as a whole. */
  function Escaped(s: seq<byte>, escapeControls: bool): seq<byte> {
    Sanitize(EscapeBytes(s, escapeControls))
  }

  method EscapeString(s: seq<byte>, escapeControls: bool) returns (r: seq<byte>)
    ensures r == Escaped(s, escapeControls)
    ensures Clean(r)
    ensures escapeControls ==> forall i :: 0 <= i < |r| ==> SPACE <= r[i] != DEL
  {
    hide EscapeByte, Sanitize, Clean;
    r := [];
    assert s[0..] == s;
    for i := 0 to |s|
      invariant EscapeBytes(s, escapeControls) == r + EscapeBytes(s[i..], escapeControls)
    {
      assert s[i..][1..] == s[i + 1..];
      r := r + EscapeByte(s[i], escapeControls);
    }
    assert s[|s|..] == [];
    assert r == EscapeBytes(s, escapeControls);
    EscapedIsPrintable(s, escapeControls);
    SanitizeIsIdentityIffClean(r);
    var valid := IsValidUtf8(r);
    if !valid {
      r := PruneInvalidUtf8(r);
    }
  }

  predicate Printable(s: seq<byte>) {
    forall i :: 0 <= i < |s| ==> SPACE <= s[i] != DEL
  }

  lemma UnitKeepsPrintable(s: seq<byte>)
    requires s != [] && Printable(s)
    ensures Printable(UnitText(s))
  {
    hide ValidateNext, UnicodeEscape;
  }

  lemma {:induction false} SanitizeKeepsPrintable(s: seq<byte>)
    requires Printable(s)
    ensures Printable(Sanitize(s))
    decreases |s|
  {
    hide UnitText, UnitLength;
    if s != [] {
      SanitizeKeepsPrintable(s[UnitLength(s)..]);
      UnitKeepsPrintable(s);
    }
  }

  /** Whatever the input, the literal is accepted UTF-8, and with controls escaped it has none left. */
  lemma EscapedIsPrintable(s: seq<byte>, escapeControls: bool)
    ensures Clean(Escaped(s, escapeControls))
    ensures escapeControls ==> Printable(Escaped(s, escapeControls))
  {
    SanitizeIsClean(EscapeBytes(s, escapeControls));
    if escapeControls {
      EscapeBytesIsPrintable(s);
      SanitizeKeepsPrintable(EscapeBytes(s, true));
    }
  }

  lemma {:induction false} EscapeBytesIsPrintable(s: seq<byte>)
    ensures Printable(EscapeBytes(s, true))
  {
    if s != [] {
      hide EscapeByte;
      EscapeBytesIsPrintable(s[1..]);
    }
  }

  // ---------------------------------------------------------------- escaping commutes with sanitising

  /** What one unit of the original string becomes in the literal. */
  function UnitEscaped(s: seq<byte>): seq<byte>
    requires s != []
  {
    if s[0] < 0x80 then EscapeByte(s[0], true) else UnitText(s)
  }

  /** The literal's contents, unit by unit. */
  function EscapedUnits(s: seq<byte>): seq<byte> {
    if s == [] then [] else UnitEscaped(s) + EscapedUnits(s[UnitLength(s)..])
  }

  lemma AsciiUnit(s: seq<byte>)
    requires s != [] && s[0] < 0x80
    ensures UnitLength(s) == 1 && UnitText(s) == [s[0]]
    ensures ValidateNext(s, 0) == Step(Utf8Ok, 1, s[0] as int)
  {
    assert s[..1] == [s[0]];
  }

  lemma SanitizeAsciiHead(s: seq<byte>)
    requires s != [] && s[0] < 0x80
    ensures Sanitize(s) == [s[0]] + Sanitize(s[1..])
  {
    AsciiUnit(s);
    hide UnitText, UnitLength;
  }

  lemma {:induction false} SanitizeAsciiPrefix(a: seq<byte>, t: seq<byte>)
    requires forall i :: 0 <= i < |a| ==> a[i] < 0x80
    ensures Sanitize(a + t) == a + Sanitize(t)
  {
    hide *;
    if a == [] {
      assert a + t == t;
    } else {
      var s := a + t;
      SanitizeAsciiHead(s);
      assert s[1..] == a[1..] + t;
      SanitizeAsciiPrefix(a[1..], t);
      var r := Sanitize(t);
      assert Sanitize(s) == [a[0]] + (a[1..] + r);
      assert [a[0]] + (a[1..] + r) == a + r;
    }
  }

  /** The head of the escaped string is a trail octet exactly when the head of the string is. */
  lemma EscapedHead(s: seq<byte>)
    ensures var e := EscapeBytes(s, true);
      (s == [] ==> e == []) && (s != [] ==> e != [] && (s[0] >= 0x80 ==> e[0] == s[0]) && (s[0] < 0x80 ==> e[0] < 0x80))
  {
  }

  lemma EscapeCopiesHead(s: seq<byte>)
    requires s != [] && s[0] >= 0x80
    ensures EscapeBytes(s, true) == [s[0]] + EscapeBytes(s[1..], true)
  {
  }

  /** Octets of 0x80 and above are copied. */
  lemma {:induction false} EscapeCopies(s: seq<byte>, n: nat)
    requires n <= |s| && forall i :: 0 <= i < n ==> s[i] >= 0x80
    ensures EscapeBytes(s, true) == s[..n] + EscapeBytes(s[n..], true)
  {
    hide *;
    if n == 0 {
      assert s[0..] == s;
    } else {
      EscapeCopiesHead(s);
      EscapeCopies(s[1..], n - 1);
      assert s[1..][n - 1..] == s[n..];
      var r := EscapeBytes(s[n..], true);
      assert [s[0]] + (s[1..][..n - 1] + r) == s[..n] + r;
    }
  }

  lemma TrailAgrees(s: seq<byte>, k: nat)
    requires 1 <= k <= |s| && forall i :: 0 <= i < k ==> s[i] >= 0x80
    ensures IncreaseSafely(EscapeBytes(s, true), k) == IncreaseSafely(s, k)
    ensures IncreaseSafely(s, k) == Utf8Ok ==> k < |s| && s[k] >= 0x80 && EscapeBytes(s, true)[k] == s[k]
  {
    EscapeCopies(s, k);
    EscapedHead(s[k..]);
    assert |s[..k]| == k;
    var e := EscapeBytes(s, true);
    if k < |s| {
      assert e[k] == EscapeBytes(s[k..], true)[0];
    }
  }

  /** The decoder cannot tell the escaped string from the original at a non-ASCII octet. */
  lemma DecoderAgrees(s: seq<byte>)
    requires s != [] && s[0] >= 0x80
    ensures EscapeBytes(s, true) != []
    ensures ValidateNext(EscapeBytes(s, true), 0) == ValidateNext(s, 0)
  {
    hide EscapeBytes, IncreaseSafely;
    var e := EscapeBytes(s, true);
    EscapedHead(s);
    TrailAgrees(s, 1);
    if IncreaseSafely(s, 1) == Utf8Ok {
      TrailAgrees(s, 2);
      if IncreaseSafely(s, 2) == Utf8Ok {
        TrailAgrees(s, 3);
        assert IncreaseSafely(s, 3) == IncreaseSafely(e, 3);
      }
    }
    assert TrailError(e, 0, SequenceLength(s[0])) == TrailError(s, 0, SequenceLength(s[0]));
    if SequenceLength(s[0]) != 0 && TrailError(s, 0, SequenceLength(s[0])) == Utf8Ok {
      TrailsOk(s, e);
    }
  }

  lemma TrailsOk(s: seq<byte>, e: seq<byte>)
    requires s != [] && e == EscapeBytes(s, true) && e != [] && s[0] == e[0] >= 0x80
    requires SequenceLength(s[0]) != 0 && TrailError(s, 0, SequenceLength(s[0])) == Utf8Ok
    ensures var n := SequenceLength(s[0]); 2 <= n && n <= |s| && n <= |e| && Assemble(e, 0, n) == Assemble(s, 0, n)
    ensures forall i :: 0 <= i < SequenceLength(s[0]) ==> s[i] >= 0x80
  {
    TrailsAreHigh(s);
    hide EscapeBytes, Join2, Join3, Join4, SequenceLength, TrailError;
    var n := SequenceLength(s[0]);
    EscapeCopies(s, n);
    assert forall i :: 0 <= i < n ==> e[i] == s[i];
  }

  lemma TrailsAreHigh(s: seq<byte>)
    requires s != [] && s[0] >= 0x80
    requires SequenceLength(s[0]) != 0 && TrailError(s, 0, SequenceLength(s[0])) == Utf8Ok
    ensures var n := SequenceLength(s[0]); 2 <= n <= 4 && n <= |s| && forall i :: 0 <= i < n ==> s[i] >= 0x80
  {
  }

  lemma {:induction false} EscapedIsUnitwise(s: seq<byte>)
    ensures Escaped(s, true) == EscapedUnits(s)
    decreases |s|
  {
    if s != [] {
      var e := EscapeBytes(s, true);
      if s[0] < 0x80 {
        AsciiUnit(s);
        hide Sanitize, UnitLength;
        SanitizeAsciiPrefix(EscapeByte(s[0], true), EscapeBytes(s[1..], true));
        EscapedIsUnitwise(s[1..]);
      } else {
        NonAsciiUnit(s);
        hide *;
        EscapedIsUnitwise(s[UnitLength(s)..]);
        EscapedUnitsStep(s);
        EscapedUnfold(s[UnitLength(s)..]);
        EscapedUnfold(s);
      }
    }
  }

  lemma EscapedUnfold(s: seq<byte>)
    ensures Escaped(s, true) == Sanitize(EscapeBytes(s, true))
  {
  }

  lemma EscapedUnitsStep(s: seq<byte>)
    requires s != [] && s[0] >= 0x80
    ensures EscapedUnits(s) == UnitText(s) + EscapedUnits(s[UnitLength(s)..])
  {
  }

  lemma NonAsciiUnit(s: seq<byte>)
    requires s != [] && s[0] >= 0x80
    ensures Sanitize(EscapeBytes(s, true)) == UnitText(s) + Sanitize(EscapeBytes(s[UnitLength(s)..], true))
  {
    hide ValidateNext, EscapeBytes, UnicodeEscape;
    var e := EscapeBytes(s, true);
    DecoderAgrees(s);
    var n := UnitLength(s);
    UnitIsHigh(s);
    EscapeCopies(s, n);
    assert e[n..] == EscapeBytes(s[n..], true);
    assert e[..n] == s[..n];
    assert UnitText(e) == UnitText(s);
  }

  lemma UnitIsHigh(s: seq<byte>)
    requires s != [] && s[0] >= 0x80
    ensures forall i :: 0 <= i < UnitLength(s) ==> s[i] >= 0x80
  {
    hide Assemble, IsCodePointValid, IsOverlong;
  }

  // ---------------------------------------------------------------- reading

  /** A reader either throws or returns a value and leaves the rest of the stream. */
  datatype Parsed<T> = Fail | Parsed(value: T, rest: seq<byte>)

  function Push<T>(prefix: seq<T>, r: Parsed<seq<T>>): Parsed<seq<T>> {
    match r
    case Fail => Fail
    case Parsed(value, rest) => Parsed(prefix + value, rest)
  }

  lemma PushTwice<T>(a: seq<T>, b: seq<T>, r: Parsed<seq<T>>)
    ensures Push(a, Push(b, r)) == Push(a + b, r)
  {
    if r.Parsed? {
      assert a + (b + r.value) == a + b + r.value;
    }
  }

  lemma PushNothing<T>(r: Parsed<seq<T>>)
    ensures Push([], r) == r
  {
    if r.Parsed? {
      assert [] + r.value == r.value;
    }
  }

  /** The character `parseEscape` returns for the one after the backslash. */
  function Unescaped(b: byte): byte {
    if b == LOWER_T then TAB else if b == LOWER_N then LF else if b == LOWER_R then CR else b
  }

  /** The rest of a string literal after its opening quote. */
  function StringBody(t: seq<byte>): (r: Parsed<seq<byte>>)
    ensures r.Parsed? ==> |r.rest| < |t|
  {
    if t == [] then Fail
    else if t[0] == BACKSLASH then
      if |t| == 1 then Fail else Push([Unescaped(t[1])], StringBody(t[2..]))
    else if t[0] == EOT then Fail
    else if t[0] == QUOTE then Parsed([], t[1..])
    else Push([t[0]], StringBody(t[1..]))
  }

  function StringLiteral(t: seq<byte>): (r: Parsed<seq<byte>>)
    ensures r.Parsed? ==> |r.rest| < |t|
  {
    if t == [] || t[0] != QUOTE then Fail else StringBody(t[1..])
  }

  // ---------------------------------------------------------------- what comes back

  /** What one unit of the original string reads back as. */
  function UnitRespelled(s: seq<byte>): seq<byte>
    requires s != []
  {
    if s[0] < 0x80 then
      if IsHidden(s[0]) then UnicodeEscape(s[0] as int)[1..] else [s[0]]
    else if ValidateNext(s, 0).error == Utf8Ok && IsC1(ValidateNext(s, 0).codePoint) then
      UnicodeEscape(ValidateNext(s, 0).codePoint)[1..]
    else UnitText(s)
  }

  function Respell(s: seq<byte>): seq<byte> {
    if s == [] then [] else UnitRespelled(s) + Respell(s[UnitLength(s)..])
  }

  predicate Copied(s: seq<byte>) {
    forall i :: 0 <= i < |s| ==> s[i] != BACKSLASH && s[i] != QUOTE && s[i] != EOT
  }

  lemma {:induction false} BodyCopies(a: seq<byte>, more: seq<byte>)
    requires Copied(a)
    ensures StringBody(a + more) == Push(a, StringBody(more))
  {
    if a == [] {
      assert a + more == more;
      PushNothing(StringBody(more));
    } else {
      var t := a + more;
      assert t[1..] == a[1..] + more;
      BodyCopies(a[1..], more);
      PushTwice([a[0]], a[1..], StringBody(more));
      assert [a[0]] + a[1..] == a;
    }
  }

  lemma BodyUnescapes(b: byte, more: seq<byte>)
    ensures StringBody([BACKSLASH, b] + more) == Push([Unescaped(b)], StringBody(more))
  {
    var t := [BACKSLASH, b] + more;
    assert t[2..] == more;
  }

  /** \u00xx is not decoded: the backslash goes, the rest stays. */
  lemma BodyOfUnicodeEscape(v: nat, more: seq<byte>)
    requires v < 256
    ensures StringBody(UnicodeEscape(v) + more) == Push(UnicodeEscape(v)[1..], StringBody(more))
  {
    var u := UnicodeEscape(v);
    var tail := u[2..];
    assert u + more == [BACKSLASH, u[1]] + (tail + more);
    BodyUnescapes(u[1], tail + more);
    BodyCopies(tail, more);
    PushTwice([u[1]], tail, StringBody(more));
    assert [u[1]] + tail == u[1..];
  }

  lemma BodyOfUnit(s: seq<byte>, more: seq<byte>)
    requires s != []
    ensures StringBody(UnitEscaped(s) + more) == Push(UnitRespelled(s), StringBody(more))
  {
    hide StringBody, UnicodeEscape, ValidateNext;
    if s[0] >= 0x80 {
      if ValidateNext(s, 0).error == Utf8Ok && IsC1(ValidateNext(s, 0).codePoint) {
        BodyOfUnicodeEscape(ValidateNext(s, 0).codePoint, more);
      } else {
        UnitIsHigh(s);
        BodyCopies(UnitText(s), more);
      }
    } else if IsHidden(s[0]) {
      BodyOfUnicodeEscape(s[0] as int, more);
    } else if |EscapeByte(s[0], true)| == 2 {
      BodyUnescapes(EscapeByte(s[0], true)[1], more);
    } else {
      BodyCopies([s[0]], more);
    }
  }

  lemma {:induction false} BodyOfUnits(s: seq<byte>, rest: seq<byte>)
    ensures StringBody(EscapedUnits(s) + [QUOTE] + rest) == Parsed(Respell(s), rest)
    decreases |s|
  {
    if s == [] {
      assert EscapedUnits(s) + [QUOTE] + rest == [QUOTE] + rest;
      assert ([QUOTE] + rest)[1..] == rest;
    } else {
      hide StringBody, UnitEscaped, UnitRespelled, UnitLength;
      var tail := s[UnitLength(s)..];
      var more := EscapedUnits(tail) + [QUOTE] + rest;
      assert EscapedUnits(s) + [QUOTE] + rest == UnitEscaped(s) + more;
      BodyOfUnit(s, more);
      BodyOfUnits(tail, rest);
    }
  }

  /** Reading a written literal gives the respelling and consumes exactly the literal. */
  lemma LiteralReadsBack(s: seq<byte>, rest: seq<byte>)
    ensures StringLiteral([QUOTE] + Escaped(s, true) + [QUOTE] + rest) == Parsed(Respell(s), rest)
  {
    hide StringBody, Escaped, EscapedUnits, Respell;
    EscapedIsUnitwise(s);
    BodyOfUnits(s, rest);
    var t := [QUOTE] + Escaped(s, true) + [QUOTE] + rest;
    assert t[1..] == Escaped(s, true) + [QUOTE] + rest;
  }

  // ---------------------------------------------------------------- plain strings

  /** Accepted UTF-8 with no C1 character, no DEL and no control character but tab, LF and CR. */
  ghost predicate Plain(s: seq<byte>) {
    Clean(s) && NoneHidden(s)
  }

  predicate NoneHidden(s: seq<byte>) {
    forall i :: 0 <= i < |s| ==> !IsHidden(s[i])
  }

  lemma UnitRespelledIsPlain(s: seq<byte>)
    requires s != []
    ensures Plain(UnitRespelled(s))
  {
    hide ValidateNext, Encode, Clean;
    var r := ValidateNext(s, 0);
    if s[0] < 0x80 || (r.error == Utf8Ok && IsC1(r.codePoint)) {
      AsciiIsClean(UnitRespelled(s));
    } else if r.error != Utf8Ok {
      EmptyIsClean();
    } else {
      UnitIsHigh(s);
      EncodeUndoesDecode(s, 0);
      EmptyIsClean();
      CleanCons(r.codePoint, []);
      assert UnitText(s) == Encode(r.codePoint) + [];
    }
  }

  lemma {:induction false} RespellIsPlain(s: seq<byte>)
    ensures Plain(Respell(s))
    decreases |s|
  {
    if s == [] {
      EmptyIsClean();
    } else {
      hide Clean, UnitRespelled, UnitLength;
      UnitRespelledIsPlain(s);
      RespellIsPlain(s[UnitLength(s)..]);
      CleanConcat(UnitRespelled(s), Respell(s[UnitLength(s)..]));
    }
  }

  lemma PlainUnit(s: seq<byte>)
    requires s != [] && Plain(s)
    ensures UnitRespelled(s) == s[..UnitLength(s)] && Plain(s[UnitLength(s)..])
  {
    hide Clean;
    CleanTail(s);
    if s[0] < 0x80 {
      AsciiUnit(s);
    }
    hide ValidateNext;
  }

  lemma {:induction false} PlainIsKept(s: seq<byte>)
    requires Plain(s)
    ensures Respell(s) == s
    decreases |s|
  {
    if s != [] {
      hide Plain, UnitRespelled, UnitLength;
      PlainUnit(s);
      PlainIsKept(s[UnitLength(s)..]);
      assert s == s[..UnitLength(s)] + s[UnitLength(s)..];
    }
  }

  /** A string survives writing and reading exactly when it is plain. */
  lemma RespellIsIdentityIffPlain(s: seq<byte>)
    ensures Respell(s) == s <==> Plain(s)
  {
    if Plain(s) {
      PlainIsKept(s);
    } else {
      RespellIsPlain(s);
    }
  }
}
